/** The LR(0) automaton as a specification: what each state's closure
    yields (reductions, shift symbols, successor kernels), how a successor
    kernel is resolved to a state, and the whole work-list construction as a
    function.  The imperative construction is proved equal to `Build`. */
module Automaton {
  import opened Grammars
  import opened Derives
  import opened ShiftSort
  import opened KernelArena

  /** States are numbered in 15 bits: at most 0x7fff of them. */
  const MaxStates := 0x7fff

  datatype Option<T> = None | Some(value: T)

  /** A state: the symbol shifted to reach it (0 for the initial state) and
      its kernel items. */
  datatype Core = Core(accessingSymbol: int, items: seq<int>)

  /** The successor states of `state`, one per shift symbol in ascending
      symbol order. */
  datatype Shifts = Shifts(state: int, shifts: seq<int>)

  /** The rules reducible in `state`, in item order. */
  datatype Reductions = Reductions(state: int, rules: seq<int>)

  datatype Automaton = Automaton(states: seq<Core>, shifts: seq<Shifts>, reductions: seq<Reductions>)

  predicate ValidItems(g: Grammar, items: seq<int>)
  {
    forall i :: 0 <= i < |items| ==> 0 <= items[i] < g.nitems && items[i] < |g.ritem|
  }

  predicate StrictlyIncreasing(s: seq<int>)
  {
    forall i, j :: 0 <= i < j < |s| ==> s[i] < s[j]
  }

  /** What the closure collaborator promises: for any kernel, an ascending
      list of distinct valid items. */
  ghost predicate ClosureOk(g: Grammar, cl: seq<int> -> seq<int>)
  {
    forall k :: ValidItems(g, cl(k)) && StrictlyIncreasing(cl(k))
  }

  /** The successor kernel for `sym`: each item of `items` with the dot
      before `sym`, advanced past it, in `items` order. */
  function Kernel(g: Grammar, items: seq<int>, sym: int): (k: seq<int>)
    requires ValidItems(g, items)
  {
    if items == [] then []
    else
      var it := items[|items| - 1];
      Kernel(g, items[..|items| - 1], sym) + if g.ritem[it] == sym then [it + 1] else []
  }

  /** The symbols (other than 0) that some item has after its dot, in order
      of first occurrence. */
  function ShiftSymbols(g: Grammar, items: seq<int>): (syms: seq<int>)
    requires ValidItems(g, items)
  {
    if items == [] then []
    else
      var prev, sym := ShiftSymbols(g, items[..|items| - 1]), g.ritem[items[|items| - 1]];
      if sym > 0 && sym !in prev then prev + [sym] else prev
  }

  /** The rules completed at some item of `items`, in item order. */
  function ReductionRules(g: Grammar, items: seq<int>): (rules: seq<int>)
    requires ValidItems(g, items)
    ensures |rules| <= |items|
  {
    if items == [] then []
    else
      var it := items[|items| - 1];
      ReductionRules(g, items[..|items| - 1]) + if g.ritem[it] < 0 then [-g.ritem[it]] else []
  }

  /** Every kernel item sits just after an occurrence of `sym`, and (for a
      symbol) is itself a valid item. */
  lemma {:induction false} KernelShape(g: Grammar, items: seq<int>, sym: int)
    requires WellFormed(g) && ValidItems(g, items) && sym >= 0
    ensures ValidItems(g, Kernel(g, items, sym))
    ensures forall x :: x in Kernel(g, items, sym) ==> 1 <= x && g.ritem[x - 1] == sym
  {
    if items != [] {
      KernelShape(g, items[..|items| - 1], sym);
      var it := items[|items| - 1];
      assert it in items;
      if g.ritem[it] == sym {
        assert it != g.nitems - 1;
      }
    }
  }

  /** A kernel drawn from distinct items below `n` has at most as many
      entries as `sym` has occurrences below `n`: it fits its arena region. */
  lemma {:induction false} KernelFitsBelow(g: Grammar, items: seq<int>, sym: int, n: nat)
    requires ValidItems(g, items) && StrictlyIncreasing(items) && n <= |g.ritem|
    requires forall x :: x in items ==> x < n
    ensures |Kernel(g, items, sym)| <= SymbolCount(g, sym, n)
  {
    if items != [] {
      var last := items[|items| - 1];
      assert last in items;
      var prefix := items[..|items| - 1];
      forall x | x in prefix ensures x < last {
        var i :| 0 <= i < |prefix| && prefix[i] == x;
        assert items[i] == x;
      }
      KernelFitsBelow(g, prefix, sym, last);
      SymbolCountMonotone(g, sym, last + 1, n);
    }
  }

  lemma KernelFits(g: Grammar, items: seq<int>, sym: int)
    requires WellFormed(g) && ValidItems(g, items) && StrictlyIncreasing(items)
    ensures |Kernel(g, items, sym)| <= SymbolCount(g, sym, g.nitems)
  {
    KernelFitsBelow(g, items, sym, g.nitems);
  }

  /** Kernels grow item by item, which is how `new_item_sets` fills them. */
  lemma KernelAppend(g: Grammar, items: seq<int>, it: int, sym: int)
    requires ValidItems(g, items) && 0 <= it < g.nitems && it < |g.ritem|
    ensures ValidItems(g, items + [it])
    ensures Kernel(g, items + [it], sym) ==
              Kernel(g, items, sym) + if g.ritem[it] == sym then [it + 1] else []
  {
    assert (items + [it])[..|items|] == items;
  }

  /** A symbol is a shift symbol exactly when it is positive and its
      kernel is non-empty; each shift symbol is listed once. */
  lemma {:induction false} ShiftSymbolsExactly(g: Grammar, items: seq<int>)
    requires WellFormed(g) && ValidItems(g, items)
    ensures forall s :: s in ShiftSymbols(g, items) <==> 0 < s && Kernel(g, items, s) != []
    ensures forall i, j :: 0 <= i < j < |ShiftSymbols(g, items)| ==>
              ShiftSymbols(g, items)[i] != ShiftSymbols(g, items)[j]
    ensures forall s :: s in ShiftSymbols(g, items) ==> 0 < s < g.nsyms
  {
    if items != [] {
      var prefix := items[..|items| - 1];
      ShiftSymbolsExactly(g, prefix);
      var it := items[|items| - 1];
      assert it in items;
      assert items == prefix + [it];
      forall s ensures Kernel(g, items, s) == Kernel(g, prefix, s) + if g.ritem[it] == s then [it + 1] else [] {
        KernelAppend(g, prefix, it, s);
      }
    }
  }

  /** A rule is reduced exactly when some item of the set is its end. */
  lemma {:induction false} ReductionRulesExactly(g: Grammar, items: seq<int>)
    requires WellFormed(g) && ValidItems(g, items)
    ensures forall r :: r in ReductionRules(g, items) <==> exists x :: x in items && g.ritem[x] == -r && r > 0
    ensures forall r :: r in ReductionRules(g, items) ==> 1 <= r < g.nrules
  {
    if items != [] {
      var prefix := items[..|items| - 1];
      ReductionRulesExactly(g, prefix);
      var it := items[|items| - 1];
      assert items == prefix + [it];
      assert it in items;
    }
  }

  /** The kernel of a state reached by shifting `sym`: non-empty, and every
      item just after an occurrence of `sym`. */
  predicate KernelShaped(g: Grammar, sym: int, k: seq<int>)
    requires |g.ritem| == g.nitems
  {
    k != [] && 0 < sym &&
    forall j :: 0 <= j < |k| ==> 1 <= k[j] < g.nitems && g.ritem[k[j] - 1] == sym
  }

  /** State 0 has accessing symbol 0 and rule starts for items; every other
      state has the kernel shape of its accessing symbol. */
  predicate ShapedStates(g: Grammar, states: seq<Core>)
    requires |g.ritem| == g.nitems
  {
    && |states| >= 1
    && states[0].accessingSymbol == 0
    && (forall j :: 0 <= j < |states[0].items| ==> IsRuleStart(g, states[0].items[j]))
    && (forall i :: 1 <= i < |states| ==> KernelShaped(g, states[i].accessingSymbol, states[i].items))
  }

  /** No two states have the same kernel. */
  predicate DistinctStates(states: seq<Core>)
  {
    forall i, j :: 0 <= i < j < |states| ==> states[i].items != states[j].items
  }

  /** The lowest-numbered state whose kernel is `items`, or -1 if none. */
  function FindState(states: seq<Core>, items: seq<int>): (r: int)
    ensures -1 <= r < |states|
    ensures 0 <= r ==> states[r].items == items
    ensures forall i :: 0 <= i < |states| && (r == -1 || i < r) ==> states[i].items != items
  {
    if states == [] then -1
    else
      var r := FindState(states[..|states| - 1], items);
      if r >= 0 then r
      else if states[|states| - 1].items == items then |states| - 1
      else -1
  }

  /** `get_state`: the state whose kernel is `k`, appending a new state with
      accessing symbol `sym` when there is none; `None` when a new state is
      needed and the state numbers are exhausted. */
  function ResolveState(states: seq<Core>, sym: int, k: seq<int>): (r: Option<(seq<Core>, int)>)
    ensures r.None? <==> |states| >= MaxStates && forall i :: 0 <= i < |states| ==> states[i].items != k
    ensures r.Some? ==> 0 <= r.value.1 < |r.value.0| && r.value.0[r.value.1].items == k
    ensures r.Some? && r.value.1 < |states| ==> r.value.0 == states
    ensures r.Some? && r.value.1 >= |states| ==>
              r.value.0 == states + [Core(sym, k)] && forall i :: 0 <= i < |states| ==> states[i].items != k
  {
    var found := FindState(states, k);
    if found >= 0 then Some((states, found))
    else if |states| < MaxStates then Some((states + [Core(sym, k)], |states|))
    else None
  }

  /** `append_states`: resolve the successor of `items` on each of `syms`
      in turn, collecting the target states. */
  function ResolveAll(g: Grammar, states: seq<Core>, items: seq<int>, syms: seq<int>): (r: Option<(seq<Core>, seq<int>)>)
    requires ValidItems(g, items)
    ensures r.Some? ==> states <= r.value.0 && |r.value.1| == |syms|
    ensures r.Some? && |states| <= MaxStates ==> |r.value.0| <= MaxStates
    ensures r.Some? ==> forall k :: 0 <= k < |syms| ==>
              0 <= r.value.1[k] < |r.value.0| && r.value.0[r.value.1[k]].items == Kernel(g, items, syms[k])
    ensures r.Some? ==> forall i :: |states| <= i < |r.value.0| ==> i in r.value.1
  {
    if syms == [] then Some((states, []))
    else
      var sym := syms[|syms| - 1];
      var prev := ResolveAll(g, states, items, syms[..|syms| - 1]);
      if prev.None? then None
      else
        var next := ResolveState(prev.value.0, sym, Kernel(g, items, sym));
        if next.None? then None
        else Some((next.value.0, prev.value.1 + [next.value.1]))
  }

  /** A recorded shift entry: `state`'s sorted shift symbols, each with the
      state whose core is that symbol and its successor kernel. */
  ghost predicate ShiftOk(g: Grammar, cl: seq<int> -> seq<int>, states: seq<Core>, e: Shifts)
  {
    && 0 <= e.state < |states|
    && ValidItems(g, cl(states[e.state].items))
    && var itemSet := cl(states[e.state].items);
       var syms := InsertionSort(ShiftSymbols(g, itemSet));
       && syms != []
       && |e.shifts| == |syms|
       && forall k :: 0 <= k < |syms| ==>
            0 <= e.shifts[k] < |states| && states[e.shifts[k]] == Core(syms[k], Kernel(g, itemSet, syms[k]))
  }

  /** A recorded reduction entry: the non-empty list of rules completed in
      `state`'s closure. */
  ghost predicate ReductionOk(g: Grammar, cl: seq<int> -> seq<int>, states: seq<Core>, e: Reductions)
  {
    && 0 <= e.state < |states|
    && ValidItems(g, cl(states[e.state].items))
    && e.rules == ReductionRules(g, cl(states[e.state].items))
    && e.rules != []
  }

  /** One iteration of the work-list loop on state `cursor`: record its
      reductions, then its sorted shift symbols and their target states. */
  function Step(g: Grammar, cl: seq<int> -> seq<int>, a: Automaton, cursor: nat): (r: Option<Automaton>)
    requires ClosureOk(g, cl) && cursor < |a.states|
    ensures r.Some? ==> a.states <= r.value.states
    ensures r.Some? && |a.states| <= MaxStates ==> |r.value.states| <= MaxStates
  {
    var itemSet := cl(a.states[cursor].items);
    var red := ReductionRules(g, itemSet);
    var reductions := if red != [] then a.reductions + [Reductions(cursor, red)] else a.reductions;
    var syms := InsertionSort(ShiftSymbols(g, itemSet));
    var resolved := ResolveAll(g, a.states, itemSet, syms);
    if resolved.None? then None
    else
      var shifts := if syms != [] then a.shifts + [Shifts(cursor, resolved.value.1)] else a.shifts;
      Some(Automaton(resolved.value.0, shifts, reductions))
  }

  /** The work-list loop from state `cursor` on, until every state has been
      processed; `None` if the state numbers run out. */
  function Explore(g: Grammar, cl: seq<int> -> seq<int>, a: Automaton, cursor: nat): (r: Option<Automaton>)
    requires ClosureOk(g, cl) && cursor <= |a.states| <= MaxStates
    ensures r.Some? ==> a.states <= r.value.states && |r.value.states| <= MaxStates
    decreases MaxStates - cursor
  {
    if cursor == |a.states| then Some(a)
    else
      var next := Step(g, cl, a, cursor);
      if next.None? then None else Explore(g, cl, next.value, cursor + 1)
  }

  /** The right-hand side starts of `rules`, in order. */
  function RuleStarts(g: Grammar, rules: seq<int>): (items: seq<int>)
    requires forall j :: 0 <= j < |rules| ==> 0 <= rules[j] < |g.rrhs|
    ensures |items| == |rules|
    ensures forall j :: 0 <= j < |rules| ==> items[j] == g.rrhs[rules[j]]
  {
    if rules == [] then [] else RuleStarts(g, rules[..|rules| - 1]) + [g.rrhs[rules[|rules| - 1]]]
  }

  /** The kernel of the initial state: the start of every rule of the start
      symbol, in rule order. */
  function InitialItems(g: Grammar): (items: seq<int>)
    requires WellFormed(g)
    ensures |items| == |RulesOf(g, g.startSymbol, g.nrules)|
    ensures forall j :: 0 <= j < |items| ==> IsRuleStart(g, items[j])
  {
    var rules := RulesOf(g, g.startSymbol, g.nrules);
    RulesOfExactly(g, g.startSymbol, g.nrules);
    assert forall j :: 0 <= j < |rules| ==> rules[j] in rules;
    RuleStarts(g, rules)
  }

  /** The LR(0) automaton: the work list run from the initial state. */
  function Build(g: Grammar, cl: seq<int> -> seq<int>): (r: Option<Automaton>)
    requires WellFormed(g) && ClosureOk(g, cl)
    ensures r.Some? ==> 1 <= |r.value.states| <= MaxStates && r.value.states[0] == Core(0, InitialItems(g))
  {
    Explore(g, cl, Automaton([Core(0, InitialItems(g))], [], []), 0)
  }
}
