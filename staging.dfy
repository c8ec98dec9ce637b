/** How `new_item_sets` stages successor kernels in the shared arena: the
    kernel for symbol `s` occupies `items[base[s] .. ends[s]]`, and
    `ends[s] == -1` marks a symbol not touched by the current item set.
    Stated over the arrays' contents, so that each step is an ordinary
    lemma about sequences. */
module KernelStaging {
  import opened Grammars
  import opened KernelArena
  import opened Automaton

  /** Symbol `s`'s region holds exactly the kernel `k`. */
  predicate StagedIn(base: seq<int>, ends: seq<int>, items: seq<int>, s: int, k: seq<int>)
  {
    && 0 <= s < |base| && s < |ends|
    && 0 <= base[s] && ends[s] == base[s] + |k| && ends[s] <= |items|
    && forall j :: 0 <= j < |k| ==> items[base[s] + j] == k[j]
  }

  /** The arena as `compute_lr0` allocates it: one region per symbol at
      its base, the buffer exactly as long as the symbol items. */
  ghost predicate Arena(g: Grammar, base: seq<int>, ends: seq<int>, items: seq<int>)
  {
    && WellFormed(g)
    && |base| == g.nsyms && |ends| == g.nsyms
    && |items| == SymbolItems(g, g.nitems)
    && forall s :: 0 <= s < g.nsyms ==> base[s] == Base(g, s)
  }

  /** After the first `p` items: the shift symbols met so far in order of
      first occurrence, each with its partial kernel staged, and every other
      symbol marked untouched. */
  ghost predicate StagedUpTo(g: Grammar, base: seq<int>, ends: seq<int>, items: seq<int>,
                             itemSet: seq<int>, p: nat, shiftSymbol: seq<int>)
    requires ValidItems(g, itemSet) && p <= |itemSet|
  {
    && shiftSymbol == ShiftSymbols(g, itemSet[..p])
    && (forall s :: 0 <= s < |ends| && s !in shiftSymbol ==> ends[s] == -1)
    && (forall s :: s in shiftSymbol ==> StagedIn(base, ends, items, s, Kernel(g, itemSet[..p], s)))
  }

  /** An item whose next entry is not a shiftable symbol changes nothing. */
  lemma StageSkip(g: Grammar, base: seq<int>, ends: seq<int>, items: seq<int>,
                  itemSet: seq<int>, p: nat, shiftSymbol: seq<int>)
    requires WellFormed(g) && ValidItems(g, itemSet) && p < |itemSet|
    requires StagedUpTo(g, base, ends, items, itemSet, p, shiftSymbol)
    requires g.ritem[itemSet[p]] <= 0
    ensures StagedUpTo(g, base, ends, items, itemSet, p + 1, shiftSymbol)
  {
    var pre, it := itemSet[..p], itemSet[p];
    assert itemSet[..p + 1] == pre + [it];
    assert (pre + [it])[..p] == pre;
    forall s | s in shiftSymbol
      ensures Kernel(g, itemSet[..p + 1], s) == Kernel(g, pre, s)
    {
      ShiftSymbolsExactly(g, pre);
      KernelAppend(g, pre, it, s);
    }
  }

  /** An item before symbol `sym > 0`: its successor item goes to the next
      free slot of `sym`'s region (the region's base when `sym` is new), and
      every other staged kernel is left intact. */
  lemma StageShift(g: Grammar, base: seq<int>, ends: seq<int>, items: seq<int>,
                   itemSet: seq<int>, p: nat, shiftSymbol: seq<int>, ksp: int, shiftSymbol': seq<int>,
                   ends': seq<int>, items': seq<int>)
    requires Arena(g, base, ends, items)
    requires ValidItems(g, itemSet) && StrictlyIncreasing(itemSet) && p < |itemSet|
    requires StagedUpTo(g, base, ends, items, itemSet, p, shiftSymbol)
    requires 0 < g.ritem[itemSet[p]]
    requires var sym := g.ritem[itemSet[p]];
      && ksp == (if ends[sym] == -1 then base[sym] else ends[sym])
      && shiftSymbol' == if ends[sym] == -1 then shiftSymbol + [sym] else shiftSymbol
    requires 0 <= g.ritem[itemSet[p]] < |ends| && 0 <= ksp < |items|
    requires ends' == ends[g.ritem[itemSet[p]] := ksp + 1] && items' == items[ksp := itemSet[p] + 1]
    ensures StagedUpTo(g, base, ends', items', itemSet, p + 1, shiftSymbol')
  {
    var pre, it := itemSet[..p], itemSet[p];
    var sym := g.ritem[it];
    var post := itemSet[..p + 1];
    assert sym in shiftSymbol' && (ends[sym] == -1 <==> sym !in shiftSymbol)
           && ksp == base[sym] + |Kernel(g, pre, sym)| by {
      StageSlot(g, base, ends, items, itemSet, p, shiftSymbol);
    }
    assert shiftSymbol' == ShiftSymbols(g, post) by {
      PrefixStep(g, itemSet, p);
    }
    forall s | 0 <= s < |ends'| && s !in shiftSymbol' ensures ends'[s] == -1 {
      assert s != sym && s !in shiftSymbol;
    }
    assert forall s :: s in shiftSymbol' ==> StagedIn(base, ends', items', s, Kernel(g, post, s)) by {
      StageKernels(g, base, ends, items, itemSet, p, shiftSymbol, ksp);
    }
  }

  /** Every staged kernel is extended or kept, as the next item demands. */
  lemma StageKernels(g: Grammar, base: seq<int>, ends: seq<int>, items: seq<int>,
                     itemSet: seq<int>, p: nat, shiftSymbol: seq<int>, ksp: int)
    requires Arena(g, base, ends, items)
    requires ValidItems(g, itemSet) && StrictlyIncreasing(itemSet) && p < |itemSet|
    requires StagedUpTo(g, base, ends, items, itemSet, p, shiftSymbol)
    requires 0 < g.ritem[itemSet[p]]
    requires ksp == base[g.ritem[itemSet[p]]] + |Kernel(g, itemSet[..p], g.ritem[itemSet[p]])| < |items|
    requires ends[g.ritem[itemSet[p]]] == -1 <==> g.ritem[itemSet[p]] !in shiftSymbol
    ensures var sym := g.ritem[itemSet[p]];
      forall s {:trigger Kernel(g, itemSet[..p + 1], s)} ::
        s in (if ends[sym] == -1 then shiftSymbol + [sym] else shiftSymbol) ==>
        StagedIn(base, ends[sym := ksp + 1], items[ksp := itemSet[p] + 1], s, Kernel(g, itemSet[..p + 1], s))
  {
    var pre, it := itemSet[..p], itemSet[p];
    var sym := g.ritem[it];
    var post := itemSet[..p + 1];
    var ends', items' := ends[sym := ksp + 1], items[ksp := it + 1];
    var shiftSymbol' := if ends[sym] == -1 then shiftSymbol + [sym] else shiftSymbol;
    PrefixStep(g, itemSet, p);
    forall s | s in shiftSymbol' ensures StagedIn(base, ends', items', s, Kernel(g, post, s)) {
      if s == sym {
        StageSame(g, base, ends, items, itemSet, p, shiftSymbol, ksp);
      } else {
        StageOther(g, base, ends, items, itemSet, p, shiftSymbol, ksp, s);
      }
    }
  }

  lemma StageSame(g: Grammar, base: seq<int>, ends: seq<int>, items: seq<int>,
                  itemSet: seq<int>, p: nat, shiftSymbol: seq<int>, ksp: int)
    requires WellFormed(g) && |base| == g.nsyms && |ends| == g.nsyms
    requires ValidItems(g, itemSet) && p < |itemSet|
    requires StagedUpTo(g, base, ends, items, itemSet, p, shiftSymbol)
    requires 0 < g.ritem[itemSet[p]] && 0 <= base[g.ritem[itemSet[p]]]
    requires ksp == base[g.ritem[itemSet[p]]] + |Kernel(g, itemSet[..p], g.ritem[itemSet[p]])| < |items|
    ensures var sym := g.ritem[itemSet[p]];
      StagedIn(base, ends[sym := ksp + 1], items[ksp := itemSet[p] + 1], sym, Kernel(g, itemSet[..p + 1], sym))
  {
    var pre, it := itemSet[..p], itemSet[p];
    var sym := g.ritem[it];
    var k := Kernel(g, pre, sym);
    assert Kernel(g, itemSet[..p + 1], sym) == k + [it + 1] by {
      PrefixStep(g, itemSet, p);
    }
    assert k == [] || StagedIn(base, ends, items, sym, k) by {
      if sym !in shiftSymbol {
        ShiftSymbolsExactly(g, pre);
      }
    }
    WriteNext(base, ends, items, sym, k, it + 1);
  }

  lemma StageOther(g: Grammar, base: seq<int>, ends: seq<int>, items: seq<int>,
                   itemSet: seq<int>, p: nat, shiftSymbol: seq<int>, ksp: int, s: int)
    requires Arena(g, base, ends, items)
    requires ValidItems(g, itemSet) && StrictlyIncreasing(itemSet) && p < |itemSet|
    requires StagedUpTo(g, base, ends, items, itemSet, p, shiftSymbol)
    requires 0 < g.ritem[itemSet[p]]
    requires ksp == base[g.ritem[itemSet[p]]] + |Kernel(g, itemSet[..p], g.ritem[itemSet[p]])| < |items|
    requires s in shiftSymbol && s != g.ritem[itemSet[p]]
    ensures var sym := g.ritem[itemSet[p]];
      StagedIn(base, ends[sym := ksp + 1], items[ksp := itemSet[p] + 1], s, Kernel(g, itemSet[..p + 1], s))
  {
    var pre, it := itemSet[..p], itemSet[p];
    var sym := g.ritem[it];
    var post := itemSet[..p + 1];
    assert Kernel(g, post, s) == Kernel(g, pre, s) && Kernel(g, post, sym) == Kernel(g, pre, sym) + [it + 1] by {
      PrefixStep(g, itemSet, p);
    }
    assert 0 < s < g.nsyms by {
      ShiftSymbolsExactly(g, pre);
    }
    assert |Kernel(g, pre, s)| <= SymbolCount(g, s, g.nitems) && |Kernel(g, post, sym)| <= SymbolCount(g, sym, g.nitems) by {
      assert StrictlyIncreasing(pre) && StrictlyIncreasing(post);
      KernelFits(g, pre, s);
      KernelFits(g, post, sym);
    }
    assert ksp < base[s] || base[s] + |Kernel(g, pre, s)| <= ksp by {
      if s < sym {
        BaseMonotone(g, s, sym);
      } else {
        BaseMonotone(g, sym, s);
      }
    }
    WriteElsewhere(base, ends, items, s, Kernel(g, pre, s), sym, ksp + 1, ksp, it + 1);
  }

  /** Extending the scanned prefix by one item extends the shift symbols
      and the kernels accordingly. */
  lemma PrefixStep(g: Grammar, itemSet: seq<int>, p: nat)
    requires WellFormed(g) && ValidItems(g, itemSet) && p < |itemSet|
    ensures var sym := g.ritem[itemSet[p]];
      ShiftSymbols(g, itemSet[..p + 1]) ==
        if sym > 0 && sym !in ShiftSymbols(g, itemSet[..p]) then ShiftSymbols(g, itemSet[..p]) + [sym]
        else ShiftSymbols(g, itemSet[..p])
    ensures forall s :: Kernel(g, itemSet[..p + 1], s) ==
              Kernel(g, itemSet[..p], s) + if g.ritem[itemSet[p]] == s then [itemSet[p] + 1] else []
  {
    var pre, it := itemSet[..p], itemSet[p];
    assert itemSet[..p + 1] == pre + [it];
    assert (pre + [it])[..p] == pre;
    forall s ensures Kernel(g, pre + [it], s) == Kernel(g, pre, s) + if g.ritem[it] == s then [it + 1] else [] {
      KernelAppend(g, pre, it, s);
    }
  }

  /** The slot the next kernel item of `sym` goes to lies inside `sym`'s
      region, right after its staged part. */
  lemma StageSlot(g: Grammar, base: seq<int>, ends: seq<int>, items: seq<int>,
                  itemSet: seq<int>, p: nat, shiftSymbol: seq<int>)
    requires Arena(g, base, ends, items)
    requires ValidItems(g, itemSet) && StrictlyIncreasing(itemSet) && p < |itemSet|
    requires StagedUpTo(g, base, ends, items, itemSet, p, shiftSymbol)
    requires g.ritem[itemSet[p]] > 0
    ensures var sym := g.ritem[itemSet[p]];
      && (ends[sym] == -1 <==> sym !in shiftSymbol)
      && var ksp := if ends[sym] == -1 then base[sym] else ends[sym];
         && ksp == base[sym] + |Kernel(g, itemSet[..p], sym)|
         && ksp + 1 <= base[sym] + SymbolCount(g, sym, g.nitems)
         && ksp < |items|
  {
    var pre, it := itemSet[..p], itemSet[p];
    var sym := g.ritem[it];
    var post := itemSet[..p + 1];
    PrefixStep(g, itemSet, p);
    ShiftSymbolsExactly(g, pre);
    RegionsDisjoint(g);
    assert StrictlyIncreasing(post);
    KernelFits(g, post, sym);
    if sym in shiftSymbol {
      assert StagedIn(base, ends, items, sym, Kernel(g, pre, sym));
    } else {
      assert Kernel(g, pre, sym) == [];
    }
  }

  /** Writing the next slot of a region extends its staged kernel by one. */
  lemma WriteNext(base: seq<int>, ends: seq<int>, items: seq<int>, s: int, k: seq<int>, v: int)
    requires 0 <= s < |base| && s < |ends| && 0 <= base[s]
    requires k == [] || StagedIn(base, ends, items, s, k)
    requires base[s] + |k| < |items|
    ensures StagedIn(base, ends[s := base[s] + |k| + 1], items[base[s] + |k| := v], s, k + [v])
  {
  }

  /** A write outside a region, and a new end for another symbol, leave
      that region's staged kernel intact. */
  lemma WriteElsewhere(base: seq<int>, ends: seq<int>, items: seq<int>, s: int, k: seq<int>,
                       t: int, e: int, at: int, v: int)
    requires StagedIn(base, ends, items, s, k)
    requires t != s && 0 <= t < |ends| && 0 <= at < |items|
    requires at < base[s] || base[s] + |k| <= at
    ensures StagedIn(base, ends[t := e], items[at := v], s, k)
  {
  }
}
