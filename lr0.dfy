/** The imperative LR(0) construction: the working state of the
    construction as an object whose fields are updated in place, and the
    driver loop, each proved against the specification in `Automaton`. */
module Lr0 {
  import opened Grammars
  import opened Derives
  import opened Nullable
  import opened ShiftSort
  import opened KernelArena
  import opened Automaton
  import opened AutomatonFacts
  import opened KernelStaging

  /** The working state of the construction: the states found so far, an
      index from an item to the states whose kernel starts with it, and the
      arena in which successor kernels are staged. */
  class LR0State {
    const g: Grammar
    /** For each item, the states (other than 0) whose kernel begins with it. */
    var stateSet: seq<seq<int>>
    var states: seq<Core>
    /** Where each symbol's region of `kernelItems` begins. */
    const kernelBase: seq<int>
    /** One past the last staged item of each symbol's region, or -1. */
    const kernelEnd: array<int>
    const kernelItems: array<int>

    /** The arena layout, fixed at allocation. */
    ghost predicate ArenaShape()
    {
      && WellFormed(g)
      && |kernelBase| == g.nsyms
      && (forall s :: 0 <= s < g.nsyms ==> kernelBase[s] == Base(g, s))
      && kernelEnd.Length == g.nsyms
      && kernelItems.Length == SymbolItems(g, g.nitems)
      && kernelEnd != kernelItems
    }

    ghost predicate Valid()
      reads this
    {
      && ArenaShape()
      && |stateSet| == g.nitems
      && |states| <= MaxStates
      && ShapedStates(g, states)
      && DistinctStates(states)
      // every listed state is a non-initial state whose kernel begins with the key
      && (forall key, j :: 0 <= key < |stateSet| && 0 <= j < |stateSet[key]| ==>
            1 <= stateSet[key][j] < |states| && states[stateSet[key][j]].items[0] == key)
      // every non-initial state is listed under its first kernel item
      && (forall i :: 1 <= i < |states| ==> i in stateSet[states[i].items[0]])
    }

    /** Symbol `s`'s region currently holds exactly the kernel `k`. */
    ghost predicate Staged(s: int, k: seq<int>)
      reads kernelEnd, kernelItems
    {
      StagedIn(kernelBase, kernelEnd[..], kernelItems[..], s, k)
    }

    /** The arena allocation and initial state of `compute_lr0`: no state
        listed in the index, every region untouched. */
    constructor (g: Grammar, kernelBase: seq<int>, kernelItemsCount: nat, initial: seq<Core>)
      requires WellFormed(g)
      requires |kernelBase| == g.nsyms && forall s :: 0 <= s < g.nsyms ==> kernelBase[s] == Base(g, s)
      requires kernelItemsCount == SymbolItems(g, g.nitems)
      requires initial == [Core(0, InitialItems(g))]
      ensures Valid() && ArenaShape() && fresh(kernelEnd) && fresh(kernelItems)
      ensures this.g == g && this.kernelBase == kernelBase
      ensures states == initial && stateSet == seq(g.nitems, _ => [])
      ensures forall s :: 0 <= s < g.nsyms ==> kernelEnd[s] == -1
    {
      this.g := g;
      this.kernelBase := kernelBase;
      stateSet := seq(g.nitems, _ => []);
      kernelEnd := new int[g.nsyms](_ => -1);
      kernelItems := new int[kernelItemsCount](_ => 0);
      states := initial;
      new;
      InitialShaped(g);
    }

    /** `get_state`: look up the state whose kernel is the one staged for
        `symbol`, searching only the states listed under its first item;
        append a new state when there is none.  Agrees with `ResolveState`,
        failing exactly where it does. */
    method GetState(symbol: int, ghost k: seq<int>) returns (r: int, ok: bool)
      requires Valid() && 0 < symbol < g.nsyms
      requires Staged(symbol, k) && KernelShaped(g, symbol, k)
      modifies this
      ensures Valid()
      ensures ResolveState(old(states), symbol, k) == if ok then Some((states, r)) else None
    {
      var isp := kernelBase[symbol];
      var iend := kernelEnd[symbol];
      var n := iend - isp;
      var key := kernelItems[isp];
      assert key == k[0];
      var bucket := stateSet[key];
      var b := 0;
      while b < |bucket|
        invariant 0 <= b <= |bucket|
        invariant forall c :: 0 <= c < b ==> states[bucket[c]].items != k
      {
        var state := bucket[b];
        var spItems := states[state].items;
        if |spItems| == n {
          var found := true;
          var j := 0;
          while j < n
            invariant 0 <= j <= n
            invariant found ==> forall l :: 0 <= l < j ==> k[l] == spItems[l]
            invariant !found ==> spItems != k
            invariant !found ==> j < n
          {
            if kernelItems[isp + j] != spItems[j] {
              found := false;
              break;
            }
            j := j + 1;
          }
          if found {
            assert spItems == k;
            FoundIsFirst(states, state, k);
            return state, true;
          }
        }
        b := b + 1;
      }
      NotListedIsNew(g, states, stateSet, symbol, k);
      if |states| >= MaxStates {
        return 0, false;
      }
      var newState := |states|;
      var items := kernelItems[kernelBase[symbol]..kernelEnd[symbol]];
      assert items == k;
      AddState(g, states, stateSet, symbol, k, states + [Core(symbol, k)],
               stateSet[key := stateSet[key] + [newState]]);
      states := states + [Core(symbol, items)];
      stateSet := stateSet[key := stateSet[key] + [newState]];
      r, ok := newState, true;
    }

    /** `new_item_sets`: clear every region, then for each item of the
        closure whose next entry is a symbol other than 0, append the
        advanced item to that symbol's region, noting the symbol the first
        time.  Yields the shift symbols and stages each one's successor
        kernel. */
    method NewItemSets(itemSet: seq<int>) returns (shiftSymbol: seq<int>)
      requires ArenaShape() && ValidItems(g, itemSet) && StrictlyIncreasing(itemSet)
      modifies kernelEnd, kernelItems
      ensures shiftSymbol == ShiftSymbols(g, itemSet)
      ensures forall s :: s in shiftSymbol ==> Staged(s, Kernel(g, itemSet, s))
      ensures forall s :: 0 <= s < g.nsyms && s !in shiftSymbol ==> kernelEnd[s] == -1
    {
      for i := 0 to kernelEnd.Length
        invariant forall s :: 0 <= s < i ==> kernelEnd[s] == -1
      {
        kernelEnd[i] := -1;
      }
      shiftSymbol := [];
      ghost var ends, items := kernelEnd[..], kernelItems[..];
      var p := 0;
      while p < |itemSet|
        invariant 0 <= p <= |itemSet|
        invariant kernelEnd[..] == ends && kernelItems[..] == items
        invariant StagedUpTo(g, kernelBase, ends, items, itemSet, p, shiftSymbol)
      {
        shiftSymbol, ends, items := StageItem(itemSet, p, shiftSymbol, ends, items);
        p := p + 1;
      }
      assert itemSet[..p] == itemSet;
    }

    /** One turn of the loop of `new_item_sets`: item `itemSet[p]` advanced
        over its next symbol joins that symbol's region. */
    method StageItem(itemSet: seq<int>, p: nat, shiftSymbol: seq<int>, ghost ends: seq<int>, ghost items: seq<int>)
      returns (shiftSymbol': seq<int>, ghost ends': seq<int>, ghost items': seq<int>)
      requires ArenaShape() && ValidItems(g, itemSet) && StrictlyIncreasing(itemSet) && p < |itemSet|
      requires kernelEnd[..] == ends && kernelItems[..] == items
      requires StagedUpTo(g, kernelBase, ends, items, itemSet, p, shiftSymbol)
      modifies kernelEnd, kernelItems
      ensures kernelEnd[..] == ends' && kernelItems[..] == items'
      ensures StagedUpTo(g, kernelBase, ends', items', itemSet, p + 1, shiftSymbol')
    {
      var it := itemSet[p];
      var symbol := g.ritem[it];
      if symbol > 0 {
        var ksp := kernelEnd[symbol];
        shiftSymbol' := shiftSymbol;
        if ksp == -1 {
          shiftSymbol' := shiftSymbol + [symbol];
          ksp := kernelBase[symbol];
        }
        assert 0 <= ksp < kernelItems.Length by {
          StageSlot(g, kernelBase, ends, items, itemSet, p, shiftSymbol);
        }
        ends', items' := ends[symbol := ksp + 1], items[ksp := it + 1];
        StageShift(g, kernelBase, ends, items, itemSet, p, shiftSymbol, ksp, shiftSymbol', ends', items');
        Write(kernelItems, ksp, it + 1);
        Write(kernelEnd, symbol, ksp + 1);
      } else {
        StageSkip(g, kernelBase, ends, items, itemSet, p, shiftSymbol);
        shiftSymbol', ends', items' := shiftSymbol, ends, items;
      }
    }

    /** One pass of the work-list loop of `compute_lr0` on state
        `thisState`: record its reductions, stage and sort its shift symbols,
        and resolve their target states.  Computes `Step`, failing exactly
        where it does. */
    method ProcessState(cl: seq<int> -> seq<int>, thisState: nat, shifts: seq<Shifts>, reductions: seq<Reductions>)
      returns (shifts': seq<Shifts>, reductions': seq<Reductions>, ok: bool)
      requires Valid() && ClosureOk(g, cl) && thisState < |states|
      modifies this, kernelEnd, kernelItems
      ensures Valid()
      ensures Step(g, cl, Automaton(old(states), shifts, reductions), thisState) ==
                if ok then Some(Automaton(states, shifts', reductions')) else None
    {
      ghost var a := Automaton(states, shifts, reductions);
      var itemSet := cl(states[thisState].items);
      reductions' := SaveReductions(g, thisState, itemSet, reductions);
      var shiftSymbol := NewItemSets(itemSet);
      var sorted := SortedSymbols(shiftSymbol);
      SortedStaged(this, itemSet, shiftSymbol, sorted);
      var shiftSet;
      shiftSet, ok := AppendStates(sorted, itemSet);
      if !ok {
        StepFails(g, cl, a, thisState, sorted);
        return shifts, reductions', false;
      }
      shifts' := shifts;
      if |sorted| > 0 {
        shifts' := shifts' + [Shifts(thisState, shiftSet)];
      }
      StepIs(g, cl, a, thisState, sorted, states, shiftSet, Automaton(states, shifts', reductions'));
    }

    /** `append_states`: the target state of each shift symbol in turn.
        Agrees with `ResolveAll`, failing exactly where it does. */
    method AppendStates(shiftSymbol: seq<int>, ghost itemSet: seq<int>) returns (shiftSet: seq<int>, ok: bool)
      requires Valid() && ValidItems(g, itemSet)
      requires forall k :: 0 <= k < |shiftSymbol| ==>
                 0 < shiftSymbol[k] < g.nsyms && Kernel(g, itemSet, shiftSymbol[k]) != [] &&
                 Staged(shiftSymbol[k], Kernel(g, itemSet, shiftSymbol[k]))
      modifies this
      ensures Valid()
      ensures ResolveAll(g, old(states), itemSet, shiftSymbol) == if ok then Some((states, shiftSet)) else None
    {
      shiftSet := [];
      ghost var start := states;
      ghost var ends, items := kernelEnd[..], kernelItems[..];
      var i := 0;
      while i < |shiftSymbol|
        invariant 0 <= i <= |shiftSymbol|
        invariant Valid()
        invariant kernelEnd[..] == ends && kernelItems[..] == items
        invariant ResolveAll(g, start, itemSet, shiftSymbol[..i]) == Some((states, shiftSet))
      {
        assert StagedIn(kernelBase, ends, items, shiftSymbol[i], Kernel(g, itemSet, shiftSymbol[i]));
        var found;
        shiftSet, found := ResolveNext(shiftSymbol, itemSet, i, start, shiftSet);
        if !found {
          ResolveAllFails(g, start, itemSet, shiftSymbol, i + 1);
          return [], false;
        }
        i := i + 1;
      }
      assert shiftSymbol[..i] == shiftSymbol;
      ok := true;
    }

    /** The work-list loop of `compute_lr0`: process the states in order,
        including those appended on the way, until none is left.  Computes
        `Build`, failing exactly when it does. */
    method ProcessAll(cl: seq<int> -> seq<int>) returns (shifts: seq<Shifts>, reductions: seq<Reductions>, ok: bool)
      requires Valid() && ClosureOk(g, cl) && states == [Core(0, InitialItems(g))]
      modifies this, kernelEnd, kernelItems
      ensures Valid()
      ensures ok <==> Build(g, cl).Some?
      ensures ok ==> Build(g, cl).value == Automaton(states, shifts, reductions)
    {
      shifts, reductions := [], [];
      var thisState := 0;
      while thisState < |states|
        invariant Valid()
        invariant thisState <= |states|
        invariant Explore(g, cl, Automaton(states, shifts, reductions), thisState) == Build(g, cl)
        decreases MaxStates - thisState
      {
        shifts, reductions, ok := ProcessState(cl, thisState, shifts, reductions);
        if !ok {
          return;
        }
        thisState := thisState + 1;
      }
      ok := true;
    }

    /** One turn of append_states: resolves the i-th shift symbol's kernel
        and extends the shift list, or reports that the table is full. */
    method ResolveNext(shiftSymbol: seq<int>, ghost itemSet: seq<int>, i: nat, ghost start: seq<Core>,
                       shiftSet: seq<int>) returns (shiftSet': seq<int>, found: bool)
      requires Valid() && ValidItems(g, itemSet) && i < |shiftSymbol|
      requires 0 < shiftSymbol[i] < g.nsyms && Kernel(g, itemSet, shiftSymbol[i]) != []
      requires Staged(shiftSymbol[i], Kernel(g, itemSet, shiftSymbol[i]))
      requires ResolveAll(g, start, itemSet, shiftSymbol[..i]) == Some((states, shiftSet))
      modifies this
      ensures Valid()
      ensures ResolveAll(g, start, itemSet, shiftSymbol[..i + 1]) == if found then Some((states, shiftSet')) else None
    {
      var symbol := shiftSymbol[i];
      SuccessorShaped(g, itemSet, symbol);
      ResolveAllNext(g, start, itemSet, shiftSymbol, i, states, shiftSet);
      var state;
      state, found := GetState(symbol, Kernel(g, itemSet, symbol));
      shiftSet' := shiftSet + [state];
    }
  }

  /** Appending a state with a new, well-shaped kernel and listing it under
      the kernel's first item keeps the states shaped, distinct and indexed. */
  lemma AddState(g: Grammar, states: seq<Core>, stateSet: seq<seq<int>>, sym: int, k: seq<int>,
                 states': seq<Core>, stateSet': seq<seq<int>>)
    requires WellFormed(g) && |stateSet| == g.nitems && |states| < MaxStates
    requires ShapedStates(g, states) && DistinctStates(states)
    requires forall key, j :: 0 <= key < |stateSet| && 0 <= j < |stateSet[key]| ==>
               1 <= stateSet[key][j] < |states| && states[stateSet[key][j]].items[0] == key
    requires forall i :: 1 <= i < |states| ==> i in stateSet[states[i].items[0]]
    requires KernelShaped(g, sym, k) && forall i :: 0 <= i < |states| ==> states[i].items != k
    requires states' == states + [Core(sym, k)]
    requires stateSet' == stateSet[k[0] := stateSet[k[0]] + [|states|]]
    ensures |stateSet'| == g.nitems && |states'| <= MaxStates
    ensures ShapedStates(g, states') && DistinctStates(states')
    ensures forall key, j :: 0 <= key < |stateSet'| && 0 <= j < |stateSet'[key]| ==>
              1 <= stateSet'[key][j] < |states'| && states'[stateSet'[key][j]].items[0] == key
    ensures forall i :: 1 <= i < |states'| ==> i in stateSet'[states'[i].items[0]]
  {
    assert forall i :: 0 <= i < |states| ==> states'[i] == states[i];
    forall key, j | 0 <= key < |stateSet'| && 0 <= j < |stateSet'[key]|
      ensures 1 <= stateSet'[key][j] < |states'| && states'[stateSet'[key][j]].items[0] == key
    {
      if key == k[0] && j == |stateSet[key]| {
        assert stateSet'[key][j] == |states|;
      } else {
        assert stateSet'[key][j] == stateSet[key][j];
      }
    }
    forall i | 1 <= i < |states'| ensures i in stateSet'[states'[i].items[0]] {
      if i < |states| {
        assert i in stateSet[states[i].items[0]];
      } else {
        assert stateSet'[k[0]][|stateSet[k[0]]|] == i;
      }
    }
  }

  /** In distinct states, the state with a given kernel is the first one. */
  lemma FoundIsFirst(states: seq<Core>, i: int, k: seq<int>)
    requires DistinctStates(states) && 0 <= i < |states| && states[i].items == k
    ensures FindState(states, k) == i
  {
  }

  /** A shaped kernel absent from the states listed under its first item is
      absent from every state. */
  lemma NotListedIsNew(g: Grammar, states: seq<Core>, stateSet: seq<seq<int>>, sym: int, k: seq<int>)
    requires WellFormed(g) && |stateSet| == g.nitems
    requires ShapedStates(g, states) && KernelShaped(g, sym, k)
    requires forall i :: 1 <= i < |states| ==> i in stateSet[states[i].items[0]]
    requires forall i :: 0 <= i < |states| && i in stateSet[k[0]] ==> states[i].items != k
    ensures forall i :: 0 <= i < |states| ==> states[i].items != k
  {
    NotInitial(g, states, sym, k);
  }

  /** `save_reductions`: collect the rules completed at items of the
      closure, and record them for `thisState` when there are any. */
  method SaveReductions(g: Grammar, thisState: int, itemSet: seq<int>, reductions: seq<Reductions>)
    returns (reductions': seq<Reductions>)
    requires ValidItems(g, itemSet)
    ensures var rules := ReductionRules(g, itemSet);
      reductions' == reductions + if rules != [] then [Reductions(thisState, rules)] else []
  {
    var redSet := [];
    for i := 0 to |itemSet|
      invariant redSet == ReductionRules(g, itemSet[..i])
    {
      assert itemSet[..i + 1][..i] == itemSet[..i];
      var item := g.ritem[itemSet[i]];
      if item < 0 {
        redSet := redSet + [-item];
      }
    }
    assert itemSet[..|itemSet|] == itemSet;
    reductions' := reductions;
    if |redSet| != 0 {
      reductions' := reductions' + [Reductions(thisState, redSet)];
    }
  }

  /** `initialize_states`: the initial state's kernel is the start of every
      rule listed for the start symbol in the derivation table, read up to
      the list's `-1`. */
  method InitializeStates(g: Grammar, derives: seq<int>, derivesRules: seq<int>) returns (states: seq<Core>)
    requires WellFormed(g) && |derives| == g.nsyms
    requires ListAt(derivesRules, derives[g.startSymbol], RulesOf(g, g.startSymbol, g.nrules))
    ensures states == [Core(0, InitialItems(g))]
  {
    ghost var rules := RulesOf(g, g.startSymbol, g.nrules);
    var startDerives := derives[g.startSymbol];
    StartList(g, derivesRules, startDerives);
    var items := [];
    var i := 0;
    while derivesRules[startDerives + i] >= 0
      invariant 0 <= i <= |rules|
      invariant |items| == i && forall j :: 0 <= j < i ==> items[j] == g.rrhs[rules[j]]
      decreases |rules| - i
    {
      items := items + [g.rrhs[derivesRules[startDerives + i]]];
      i := i + 1;
    }
    assert i == |rules|;
    assert items == RuleStarts(g, rules);
    states := [Core(0, items)];
  }

  /** The start symbol's list in the derivation table, entry by entry:
      rule numbers, then `-1`. */
  lemma StartList(g: Grammar, derivesRules: seq<int>, at: int)
    requires WellFormed(g)
    requires ListAt(derivesRules, at, RulesOf(g, g.startSymbol, g.nrules))
    ensures var rules := RulesOf(g, g.startSymbol, g.nrules);
      && 0 <= at && at + |rules| < |derivesRules|
      && (forall j :: 0 <= j < |rules| ==> derivesRules[at + j] == rules[j] && 0 <= rules[j] < g.nrules)
      && derivesRules[at + |rules|] == -1
      && (forall k :: at <= k <= at + |rules| ==> (derivesRules[k] >= 0 <==> k < at + |rules|))
  {
    var rules := RulesOf(g, g.startSymbol, g.nrules);
    RulesOfExactly(g, g.startSymbol, g.nrules);
    forall j | 0 <= j < |rules| ensures derivesRules[at + j] == rules[j] && 0 <= rules[j] < g.nrules {
      assert rules[j] in rules;
      assert derivesRules[at..at + |rules|][j] == derivesRules[at + j];
    }
  }

  /** What `compute_lr0` returns. */
  datatype LR0Output = LR0Output(
    states: seq<Core>,
    shifts: seq<Shifts>,
    reductions: seq<Reductions>,
    nullable: seq<bool>,
    derives: seq<int>,
    derivesRules: seq<int>)

  /** `compute_lr0` either builds the automaton or stops when a new state
      would not fit in the 15-bit state numbers. */
  datatype LR0Result = Built(output: LR0Output) | TooManyStates

  /** `compute_lr0`: build the derivation table, allocate the kernel arena,
      create the initial state, then process the states in order, recording
      each one's reductions and shifts and appending the new states its
      shifts reach; finally compute the nullable symbols.  The result is
      exactly `Build`, and it fails exactly when `Build` does. */
  method ComputeLR0(g: Grammar, cl: seq<int> -> seq<int>) returns (res: LR0Result)
    requires WellFormed(g) && ClosureOk(g, cl)
    ensures res.TooManyStates? <==> Build(g, cl).None?
    ensures res.Built? ==>
              && res.output.states == Build(g, cl).value.states
              && res.output.shifts == Build(g, cl).value.shifts
              && res.output.reductions == Build(g, cl).value.reductions
    ensures res.Built? ==>
              && |res.output.nullable| == g.nsyms
              && Closed(g, res.output.nullable)
              && exists order, via :: Justified(g, res.output.nullable, order, via)
    ensures res.Built? ==>
              && res.output.derivesRules == Layout(g, g.nsyms)
              && DerivesTable(g, res.output.derives, res.output.derivesRules)
  {
    var derives, derivesRules := SetDerives(g);
    var kernelBase, kernelItemsCount := AllocateKernelArena(g);
    var initial := InitializeStates(g, derives, derivesRules);
    var lr0 := new LR0State(g, kernelBase, kernelItemsCount, initial);
    var shifts, reductions, ok := lr0.ProcessAll(cl);
    if !ok {
      return TooManyStates;
    }
    ghost var order, via;
    var nullable;
    nullable, order, via := SetNullable(g);
    res := Built(LR0Output(lr0.states, shifts, reductions, nullable, derives, derivesRules));
  }

  /** After sorting, every shift symbol still has its successor kernel
      staged. */
  lemma SortedStaged(lr0: LR0State, itemSet: seq<int>, shiftSymbol: seq<int>, sorted: seq<int>)
    requires lr0.ArenaShape() && ValidItems(lr0.g, itemSet)
    requires shiftSymbol == ShiftSymbols(lr0.g, itemSet) && sorted == InsertionSort(shiftSymbol)
    requires forall s :: s in shiftSymbol ==> lr0.Staged(s, Kernel(lr0.g, itemSet, s))
    ensures forall k :: 0 <= k < |sorted| ==>
              0 < sorted[k] < lr0.g.nsyms && Kernel(lr0.g, itemSet, sorted[k]) != [] &&
              lr0.Staged(sorted[k], Kernel(lr0.g, itemSet, sorted[k]))
  {
    var g := lr0.g;
    forall k | 0 <= k < |sorted|
      ensures 0 < sorted[k] < g.nsyms && Kernel(g, itemSet, sorted[k]) != [] &&
              lr0.Staged(sorted[k], Kernel(g, itemSet, sorted[k]))
    {
      var s := sorted[k];
      assert 0 < s < g.nsyms && Kernel(g, itemSet, s) != [] by {
        assert s in sorted;
        SortedShiftSymbols(g, itemSet);
      }
      assert s in shiftSymbol by { ShiftSymbolsExactly(g, itemSet); }
    }
  }

  /** One pass of the driver loop computes `Step`. */
  lemma StepIs(g: Grammar, cl: seq<int> -> seq<int>, a: Automaton, cursor: nat,
               sorted: seq<int>, states': seq<Core>, shiftSet: seq<int>, a': Automaton)
    requires ClosureOk(g, cl) && cursor < |a.states|
    requires sorted == InsertionSort(ShiftSymbols(g, cl(a.states[cursor].items)))
    requires ResolveAll(g, a.states, cl(a.states[cursor].items), sorted) == Some((states', shiftSet))
    requires var rules := ReductionRules(g, cl(a.states[cursor].items));
      a'.reductions == a.reductions + if rules != [] then [Reductions(cursor, rules)] else []
    requires a'.shifts == a.shifts + if |sorted| > 0 then [Shifts(cursor, shiftSet)] else []
    requires a'.states == states'
    ensures Step(g, cl, a, cursor) == Some(a')
  {
    var itemSet := cl(a.states[cursor].items);
    assert ValidItems(g, itemSet);
    assert (sorted != []) == (|sorted| > 0);
    assert a.shifts + [] == a.shifts && a.reductions + [] == a.reductions;
    assert a' == Automaton(states', a'.shifts, a'.reductions);
  }

  /** A failed resolution in the driver loop is a failed `Step`. */
  lemma StepFails(g: Grammar, cl: seq<int> -> seq<int>, a: Automaton, cursor: nat, sorted: seq<int>)
    requires ClosureOk(g, cl) && cursor < |a.states|
    requires sorted == InsertionSort(ShiftSymbols(g, cl(a.states[cursor].items)))
    requires ResolveAll(g, a.states, cl(a.states[cursor].items), sorted).None?
    ensures Step(g, cl, a, cursor).None?
  {
  }

  /** The shift symbols sorted in place, as `sort_shift_symbols` does on
      the vector that holds them. */
  method SortedSymbols(shiftSymbol: seq<int>) returns (sorted: seq<int>)
    ensures sorted == InsertionSort(shiftSymbol)
  {
    var a := new int[|shiftSymbol|](i requires 0 <= i < |shiftSymbol| => shiftSymbol[i]);
    assert a[..] == shiftSymbol;
    SortShiftSymbols(a);
    sorted := a[..];
  }
}
