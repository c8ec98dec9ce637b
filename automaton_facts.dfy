/** What the work-list construction guarantees about the automaton it
    builds: distinct states, correct and complete shift and reduction
    entries in state order, and every state reached by some shift. */
module AutomatonFacts {
  import opened Grammars
  import opened Derives
  import opened ShiftSort
  import opened Automaton

  lemma {:induction false} DistinctCount(s: seq<int>, x: int)
    requires forall i, j :: 0 <= i < j < |s| ==> s[i] != s[j]
    ensures multiset(s)[x] <= 1
  {
    if s != [] {
      var p := s[..|s| - 1];
      DistinctCount(p, x);
      assert s == p + [s[|s| - 1]];
      if s[|s| - 1] == x {
        assert x !in p;
      }
    }
  }

  lemma TwiceCount(s: seq<int>, i: nat, j: nat)
    requires i < j < |s| && s[i] == s[j]
    ensures multiset(s)[s[i]] >= 2
  {
    assert s == s[..j] + s[j..];
    assert s[i] in s[..j];
    assert s[j] in s[j..];
    assert multiset(s) == multiset(s[..j]) + multiset(s[j..]);
  }

  /** Sorting a list without repeats yields a strictly ascending list with
      the same members and length. */
  lemma SortedDistinct(ss: seq<int>, syms: seq<int>)
    requires forall i, j :: 0 <= i < j < |ss| ==> ss[i] != ss[j]
    requires Sorted(syms) && multiset(syms) == multiset(ss)
    ensures forall s :: s in syms <==> s in ss
    ensures forall i, j :: 0 <= i < j < |syms| ==> syms[i] < syms[j]
    ensures |syms| == |ss|
  {
    forall s ensures s in syms <==> s in ss {
      assert multiset(syms)[s] == multiset(ss)[s];
    }
    forall i, j | 0 <= i < j < |syms| ensures syms[i] < syms[j] {
      if syms[i] == syms[j] {
        TwiceCount(syms, i, j);
        DistinctCount(ss, syms[i]);
        assert false;
      }
    }
    assert |multiset(syms)| == |multiset(ss)|;
  }

  /** The sorted shift symbols of an item set are exactly the positive
      symbols whose successor kernel is non-empty, in strictly ascending
      order. */
  lemma SortedShiftSymbols(g: Grammar, items: seq<int>)
    requires WellFormed(g) && ValidItems(g, items)
    ensures forall s :: s in InsertionSort(ShiftSymbols(g, items)) <==> 0 < s && Kernel(g, items, s) != []
    ensures forall s :: s in InsertionSort(ShiftSymbols(g, items)) ==> s < g.nsyms
    ensures forall i, j :: 0 <= i < j < |InsertionSort(ShiftSymbols(g, items))| ==>
              InsertionSort(ShiftSymbols(g, items))[i] < InsertionSort(ShiftSymbols(g, items))[j]
    ensures InsertionSort(ShiftSymbols(g, items)) == [] <==> ShiftSymbols(g, items) == []
  {
    ShiftSymbolsExactly(g, items);
    SortedDistinct(ShiftSymbols(g, items), InsertionSort(ShiftSymbols(g, items)));
  }

  /** A successor kernel never equals the initial state's kernel: its
      first item follows a symbol, while each initial item starts a rule. */
  lemma NotInitial(g: Grammar, states: seq<Core>, sym: int, k: seq<int>)
    requires WellFormed(g) && ShapedStates(g, states) && KernelShaped(g, sym, k)
    ensures states[0].items != k
  {
    assert !IsRuleStart(g, k[0]);
    if |states[0].items| > 0 {
      assert IsRuleStart(g, states[0].items[0]);
    }
  }

  /** Resolving a well-shaped kernel keeps the states well shaped and
      distinct, and the resolved state's core is exactly `(sym, k)`. */
  lemma ResolveStateKeeps(g: Grammar, states: seq<Core>, sym: int, k: seq<int>)
    requires WellFormed(g) && ShapedStates(g, states) && DistinctStates(states)
    requires KernelShaped(g, sym, k)
    requires ResolveState(states, sym, k).Some?
    ensures ShapedStates(g, ResolveState(states, sym, k).value.0)
    ensures DistinctStates(ResolveState(states, sym, k).value.0)
    ensures ResolveState(states, sym, k).value.0[ResolveState(states, sym, k).value.1] == Core(sym, k)
  {
    var (st, t) := ResolveState(states, sym, k).value;
    if t < |states| {
      NotInitial(g, states, sym, k);
      assert g.ritem[k[0] - 1] == states[t].accessingSymbol;
    }
  }

  /** A non-empty successor kernel of a positive symbol is well shaped. */
  lemma SuccessorShaped(g: Grammar, items: seq<int>, sym: int)
    requires WellFormed(g) && ValidItems(g, items) && 0 < sym && Kernel(g, items, sym) != []
    ensures KernelShaped(g, sym, Kernel(g, items, sym))
  {
    var kernel := Kernel(g, items, sym);
    KernelShape(g, items, sym);
    forall j | 0 <= j < |kernel| ensures 1 <= kernel[j] < g.nitems && g.ritem[kernel[j] - 1] == sym {
      assert kernel[j] in kernel;
    }
  }

  /** Resolving one more symbol extends a successful resolution of a
      prefix by that symbol's state, or fails with it. */
  lemma ResolveAllNext(g: Grammar, states: seq<Core>, items: seq<int>, syms: seq<int>, i: nat,
                       before: seq<Core>, targets: seq<int>)
    requires ValidItems(g, items) && i < |syms|
    requires ResolveAll(g, states, items, syms[..i]) == Some((before, targets))
    ensures var next := ResolveState(before, syms[i], Kernel(g, items, syms[i]));
      ResolveAll(g, states, items, syms[..i + 1]) ==
        if next.None? then None else Some((next.value.0, targets + [next.value.1]))
  {
    assert syms[..i + 1][..i] == syms[..i];
  }

  /** Once resolving a prefix of the symbols fails, resolving all of them
      fails. */
  lemma {:induction false} ResolveAllFails(g: Grammar, states: seq<Core>, items: seq<int>, syms: seq<int>, n: nat)
    requires ValidItems(g, items) && n <= |syms|
    requires ResolveAll(g, states, items, syms[..n]).None?
    ensures ResolveAll(g, states, items, syms).None?
    decreases |syms| - n
  {
    if n < |syms| {
      var prefix := syms[..|syms| - 1];
      assert prefix[..n] == syms[..n];
      ResolveAllFails(g, states, items, prefix, n);
    } else {
      assert syms[..n] == syms;
    }
  }

  /** Resolving every shift symbol keeps the states well shaped and
      distinct, and each target's core is its symbol and kernel. */
  lemma {:induction false} ResolveAllKeeps(g: Grammar, states: seq<Core>, items: seq<int>, syms: seq<int>)
    requires WellFormed(g) && ValidItems(g, items)
    requires ShapedStates(g, states) && DistinctStates(states)
    requires forall k :: 0 <= k < |syms| ==> 0 < syms[k] && Kernel(g, items, syms[k]) != []
    requires ResolveAll(g, states, items, syms).Some?
    ensures ShapedStates(g, ResolveAll(g, states, items, syms).value.0)
    ensures DistinctStates(ResolveAll(g, states, items, syms).value.0)
    ensures forall k :: 0 <= k < |syms| ==>
              var r := ResolveAll(g, states, items, syms).value;
              r.0[r.1[k]] == Core(syms[k], Kernel(g, items, syms[k]))
  {
    if syms != [] {
      var n := |syms| - 1;
      var sym, prefix := syms[n], syms[..n];
      ResolveAllKeeps(g, states, items, prefix);
      var (st, ts) := ResolveAll(g, states, items, prefix).value;
      var kernel := Kernel(g, items, sym);
      SuccessorShaped(g, items, sym);
      ResolveAllNext(g, states, items, syms, n, st, ts);
      assert syms[..n + 1] == syms;
      ResolveStateKeeps(g, st, sym, kernel);
      var (st', t) := ResolveState(st, sym, kernel).value;
      assert ResolveAll(g, states, items, syms).value == (st', ts + [t]);
      TargetCores(g, items, syms, prefix, st, ts, st', t);
    }
  }

  /** The targets of a prefix keep their cores when the states grow, and
      the last symbol's target joins them. */
  lemma TargetCores(g: Grammar, items: seq<int>, syms: seq<int>, prefix: seq<int>,
                    st: seq<Core>, ts: seq<int>, st': seq<Core>, t: int)
    requires ValidItems(g, items) && |syms| > 0 && prefix == syms[..|syms| - 1] && |ts| == |prefix|
    requires st <= st' && 0 <= t < |st'| && st'[t] == Core(syms[|syms| - 1], Kernel(g, items, syms[|syms| - 1]))
    requires forall k :: 0 <= k < |prefix| ==> 0 <= ts[k] < |st|
    requires forall k :: 0 <= k < |prefix| ==> st[ts[k]] == Core(prefix[k], Kernel(g, items, prefix[k]))
    ensures forall k :: 0 <= k < |syms| ==> st'[(ts + [t])[k]] == Core(syms[k], Kernel(g, items, syms[k]))
  {
    forall k | 0 <= k < |syms| ensures st'[(ts + [t])[k]] == Core(syms[k], Kernel(g, items, syms[k])) {
      if k < |prefix| {
        assert prefix[k] == syms[k] && (ts + [t])[k] == ts[k];
        assert st'[ts[k]] == st[ts[k]];
      }
    }
  }

  /** State `i` is a target of some shift entry of a lower-numbered state. */
  ghost predicate ShiftedInto(shifts: seq<Shifts>, i: int)
  {
    exists q :: 0 <= q < |shifts| && shifts[q].state < i && i in shifts[q].shifts
  }

  /** State `s` has a shift entry. */
  ghost predicate HasShifts(shifts: seq<Shifts>, s: int)
  {
    exists q :: 0 <= q < |shifts| && shifts[q].state == s
  }

  /** State `s` has a reduction entry. */
  ghost predicate HasReductions(reductions: seq<Reductions>, s: int)
  {
    exists q :: 0 <= q < |reductions| && reductions[q].state == s
  }

  /** The recorded entries are correct, belong to processed states and
      appear in strictly increasing state order. */
  ghost predicate EntriesOk(g: Grammar, cl: seq<int> -> seq<int>, a: Automaton, cursor: nat)
    requires ClosureOk(g, cl)
  {
    && (forall q :: 0 <= q < |a.shifts| ==> ShiftOk(g, cl, a.states, a.shifts[q]) && a.shifts[q].state < cursor)
    && (forall q :: 0 <= q < |a.reductions| ==>
          ReductionOk(g, cl, a.states, a.reductions[q]) && a.reductions[q].state < cursor)
    && (forall p, q :: 0 <= p < q < |a.shifts| ==> a.shifts[p].state < a.shifts[q].state)
    && (forall p, q :: 0 <= p < q < |a.reductions| ==> a.reductions[p].state < a.reductions[q].state)
  }

  /** Every processed state with a shift symbol or a completed rule has its
      entry. */
  ghost predicate Covered(g: Grammar, cl: seq<int> -> seq<int>, a: Automaton, cursor: nat)
    requires ClosureOk(g, cl) && cursor <= |a.states|
  {
    && (forall s :: 0 <= s < cursor && ShiftSymbols(g, cl(a.states[s].items)) != [] ==> HasShifts(a.shifts, s))
    && (forall s :: 0 <= s < cursor && ReductionRules(g, cl(a.states[s].items)) != [] ==> HasReductions(a.reductions, s))
  }

  /** Every item of the initial kernel starts a rule, so the initial state
      alone is well shaped. */
  lemma InitialShaped(g: Grammar)
    requires WellFormed(g)
    ensures forall j :: 0 <= j < |InitialItems(g)| ==> IsRuleStart(g, InitialItems(g)[j])
    ensures ShapedStates(g, [Core(0, InitialItems(g))])
  {
    var rules := RulesOf(g, g.startSymbol, g.nrules);
    RulesOfExactly(g, g.startSymbol, g.nrules);
    forall j | 0 <= j < |InitialItems(g)| ensures IsRuleStart(g, InitialItems(g)[j]) {
      assert rules[j] in rules;
    }
  }

  /** The work-list invariant after the states before `cursor` have been
      processed. */
  ghost predicate Consistent(g: Grammar, cl: seq<int> -> seq<int>, a: Automaton, cursor: nat)
    requires WellFormed(g) && ClosureOk(g, cl)
  {
    && cursor <= |a.states| <= MaxStates
    && ShapedStates(g, a.states)
    && DistinctStates(a.states)
    && a.states[0].items == InitialItems(g)
    && EntriesOk(g, cl, a, cursor)
    && Covered(g, cl, a, cursor)
    && (forall i :: 1 <= i < |a.states| ==> ShiftedInto(a.shifts, i))
  }

  /** A shift entry stays correct when states are only appended. */
  lemma ShiftOkExtend(g: Grammar, cl: seq<int> -> seq<int>, states: seq<Core>, states': seq<Core>, e: Shifts)
    requires ShiftOk(g, cl, states, e) && states <= states'
    ensures ShiftOk(g, cl, states', e)
  {
    assert states'[e.state] == states[e.state];
    var itemSet := cl(states[e.state].items);
    var syms := InsertionSort(ShiftSymbols(g, itemSet));
    forall k | 0 <= k < |syms| ensures states'[e.shifts[k]] == states[e.shifts[k]] {
    }
  }

  /** What one iteration of the work list produces, spelled out. */
  lemma StepUnfold(g: Grammar, cl: seq<int> -> seq<int>, a: Automaton, cursor: nat)
    requires ClosureOk(g, cl) && cursor < |a.states|
    requires Step(g, cl, a, cursor).Some?
    ensures var itemSet := cl(a.states[cursor].items);
      var syms := InsertionSort(ShiftSymbols(g, itemSet));
      var red := ReductionRules(g, itemSet);
      ResolveAll(g, a.states, itemSet, syms).Some? &&
      var r := ResolveAll(g, a.states, itemSet, syms).value;
      Step(g, cl, a, cursor).value ==
        Automaton(r.0, a.shifts + (if syms != [] then [Shifts(cursor, r.1)] else []),
                  a.reductions + (if red != [] then [Reductions(cursor, red)] else []))
  {
    assert ValidItems(g, cl(a.states[cursor].items));
    assert a.shifts + [] == a.shifts && a.reductions + [] == a.reductions;
  }

  /** One iteration of the work list keeps the invariant, one state further. */
  lemma StepKeeps(g: Grammar, cl: seq<int> -> seq<int>, a: Automaton, cursor: nat)
    requires WellFormed(g) && ClosureOk(g, cl)
    requires Consistent(g, cl, a, cursor) && cursor < |a.states|
    requires Step(g, cl, a, cursor).Some?
    ensures Consistent(g, cl, Step(g, cl, a, cursor).value, cursor + 1)
  {
    StepUnfold(g, cl, a, cursor);
    var itemSet := cl(a.states[cursor].items);
    assert ValidItems(g, itemSet);
    var syms := InsertionSort(ShiftSymbols(g, itemSet));
    var red := ReductionRules(g, itemSet);
    SortedShiftSymbols(g, itemSet);
    forall k | 0 <= k < |syms| ensures 0 < syms[k] && Kernel(g, itemSet, syms[k]) != [] {
      assert syms[k] in syms;
    }
    ResolveAllKeeps(g, a.states, itemSet, syms);
    var (states', targets) := ResolveAll(g, a.states, itemSet, syms).value;
    var newShifts := if syms != [] then [Shifts(cursor, targets)] else [];
    var newReductions := if red != [] then [Reductions(cursor, red)] else [];
    if syms != [] {
      assert ShiftOk(g, cl, states', Shifts(cursor, targets));
    }
    EntriesExtend(g, cl, a, cursor, states', newShifts, newReductions);
    CoveredExtend(g, cl, a, cursor, states', newShifts, newReductions);
    ReachedExtend(a, cursor, states', targets, newShifts);
  }

  lemma EntriesExtend(g: Grammar, cl: seq<int> -> seq<int>, a: Automaton, cursor: nat,
                      states': seq<Core>, newShifts: seq<Shifts>, newReductions: seq<Reductions>)
    requires ClosureOk(g, cl) && EntriesOk(g, cl, a, cursor)
    requires a.states <= states' && cursor < |a.states|
    requires newShifts == [] || (|newShifts| == 1 && newShifts[0].state == cursor && ShiftOk(g, cl, states', newShifts[0]))
    requires newReductions == [] || (|newReductions| == 1 && newReductions[0].state == cursor &&
               ReductionOk(g, cl, states', newReductions[0]))
    ensures EntriesOk(g, cl, Automaton(states', a.shifts + newShifts, a.reductions + newReductions), cursor + 1)
  {
    ShiftsExtend(g, cl, a.states, a.shifts, cursor, states', newShifts);
    ReductionsExtend(g, cl, a.states, a.reductions, cursor, states', newReductions);
  }

  lemma ShiftsExtend(g: Grammar, cl: seq<int> -> seq<int>, states: seq<Core>, shifts: seq<Shifts>, cursor: nat,
                     states': seq<Core>, newShifts: seq<Shifts>)
    requires states <= states'
    requires forall q :: 0 <= q < |shifts| ==> ShiftOk(g, cl, states, shifts[q]) && shifts[q].state < cursor
    requires forall p, q :: 0 <= p < q < |shifts| ==> shifts[p].state < shifts[q].state
    requires newShifts == [] || (|newShifts| == 1 && newShifts[0].state == cursor && ShiftOk(g, cl, states', newShifts[0]))
    ensures forall q :: 0 <= q < |shifts + newShifts| ==>
              ShiftOk(g, cl, states', (shifts + newShifts)[q]) && (shifts + newShifts)[q].state < cursor + 1
    ensures forall p, q :: 0 <= p < q < |shifts + newShifts| ==> (shifts + newShifts)[p].state < (shifts + newShifts)[q].state
  {
    var shifts' := shifts + newShifts;
    forall q | 0 <= q < |shifts'| ensures ShiftOk(g, cl, states', shifts'[q]) {
      if q < |shifts| {
        assert shifts'[q] == shifts[q];
        ShiftOkExtend(g, cl, states, states', shifts[q]);
      } else {
        assert shifts'[q] == newShifts[0];
      }
    }
    StateOrderExtend(shifts, cursor, newShifts);
  }

  lemma StateOrderExtend(shifts: seq<Shifts>, cursor: nat, newShifts: seq<Shifts>)
    requires forall q :: 0 <= q < |shifts| ==> shifts[q].state < cursor
    requires forall p, q :: 0 <= p < q < |shifts| ==> shifts[p].state < shifts[q].state
    requires newShifts == [] || (|newShifts| == 1 && newShifts[0].state == cursor)
    ensures forall q :: 0 <= q < |shifts + newShifts| ==> (shifts + newShifts)[q].state < cursor + 1
    ensures forall p, q :: 0 <= p < q < |shifts + newShifts| ==> (shifts + newShifts)[p].state < (shifts + newShifts)[q].state
  {
    var shifts' := shifts + newShifts;
    forall q | 0 <= q < |shifts'| ensures shifts'[q].state < cursor + 1 {
      if q < |shifts| {
        assert shifts'[q] == shifts[q];
      }
    }
    forall p, q | 0 <= p < q < |shifts'| ensures shifts'[p].state < shifts'[q].state {
      assert shifts'[p] == shifts[p];
    }
  }

  lemma ReductionsExtend(g: Grammar, cl: seq<int> -> seq<int>, states: seq<Core>, reductions: seq<Reductions>,
                         cursor: nat, states': seq<Core>, newReductions: seq<Reductions>)
    requires states <= states'
    requires forall q :: 0 <= q < |reductions| ==> ReductionOk(g, cl, states, reductions[q]) && reductions[q].state < cursor
    requires forall p, q :: 0 <= p < q < |reductions| ==> reductions[p].state < reductions[q].state
    requires newReductions == [] || (|newReductions| == 1 && newReductions[0].state == cursor &&
               ReductionOk(g, cl, states', newReductions[0]))
    ensures forall q :: 0 <= q < |reductions + newReductions| ==>
              ReductionOk(g, cl, states', (reductions + newReductions)[q]) && (reductions + newReductions)[q].state < cursor + 1
    ensures forall p, q :: 0 <= p < q < |reductions + newReductions| ==>
              (reductions + newReductions)[p].state < (reductions + newReductions)[q].state
  {
    var reductions' := reductions + newReductions;
    forall q | 0 <= q < |reductions'|
      ensures ReductionOk(g, cl, states', reductions'[q]) && reductions'[q].state < cursor + 1
    {
      if q < |reductions| {
        assert reductions'[q] == reductions[q];
        assert states'[reductions[q].state] == states[reductions[q].state];
      }
    }
    forall p, q | 0 <= p < q < |reductions'| ensures reductions'[p].state < reductions'[q].state {
      assert reductions'[p] == reductions[p];
    }
  }

  lemma CoveredExtend(g: Grammar, cl: seq<int> -> seq<int>, a: Automaton, cursor: nat,
                      states': seq<Core>, newShifts: seq<Shifts>, newReductions: seq<Reductions>)
    requires ClosureOk(g, cl) && cursor < |a.states| && Covered(g, cl, a, cursor)
    requires a.states <= states'
    requires ShiftSymbols(g, cl(a.states[cursor].items)) != [] ==> |newShifts| == 1 && newShifts[0].state == cursor
    requires ReductionRules(g, cl(a.states[cursor].items)) != [] ==>
               |newReductions| == 1 && newReductions[0].state == cursor
    ensures Covered(g, cl, Automaton(states', a.shifts + newShifts, a.reductions + newReductions), cursor + 1)
  {
    var shifts', reductions' := a.shifts + newShifts, a.reductions + newReductions;
    forall s | 0 <= s < cursor + 1 && ShiftSymbols(g, cl(states'[s].items)) != []
      ensures HasShifts(shifts', s)
    {
      assert states'[s] == a.states[s];
      if s < cursor {
        var q :| 0 <= q < |a.shifts| && a.shifts[q].state == s;
        assert shifts'[q] == a.shifts[q];
      } else {
        assert shifts'[|a.shifts|].state == s;
      }
    }
    forall s | 0 <= s < cursor + 1 && ReductionRules(g, cl(states'[s].items)) != []
      ensures HasReductions(reductions', s)
    {
      assert states'[s] == a.states[s];
      if s < cursor {
        var q :| 0 <= q < |a.reductions| && a.reductions[q].state == s;
        assert reductions'[q] == a.reductions[q];
      } else {
        assert reductions'[|a.reductions|].state == s;
      }
    }
  }

  lemma ReachedExtend(a: Automaton, cursor: nat, states': seq<Core>, targets: seq<int>, newShifts: seq<Shifts>)
    requires cursor < |a.states| <= |states'|
    requires forall i :: 1 <= i < |a.states| ==> ShiftedInto(a.shifts, i)
    requires forall i :: |a.states| <= i < |states'| ==> i in targets
    requires |states'| > |a.states| ==> newShifts == [Shifts(cursor, targets)]
    ensures forall i :: 1 <= i < |states'| ==> ShiftedInto(a.shifts + newShifts, i)
  {
    var shifts' := a.shifts + newShifts;
    forall i | 1 <= i < |states'| ensures ShiftedInto(shifts', i) {
      if i < |a.states| {
        assert ShiftedInto(a.shifts, i);
        var q :| 0 <= q < |a.shifts| && a.shifts[q].state < i && i in a.shifts[q].shifts;
        assert shifts'[q] == a.shifts[q];
      } else {
        assert shifts'[|a.shifts|] == Shifts(cursor, targets);
      }
    }
  }

  /** The rest of the work list keeps the invariant until every state is
      processed. */
  lemma {:induction false} ExploreKeeps(g: Grammar, cl: seq<int> -> seq<int>, a: Automaton, cursor: nat)
    requires WellFormed(g) && ClosureOk(g, cl)
    requires Consistent(g, cl, a, cursor)
    requires Explore(g, cl, a, cursor).Some?
    ensures Consistent(g, cl, Explore(g, cl, a, cursor).value, |Explore(g, cl, a, cursor).value.states|)
    decreases MaxStates - cursor
  {
    if cursor < |a.states| {
      StepKeeps(g, cl, a, cursor);
      ExploreKeeps(g, cl, Step(g, cl, a, cursor).value, cursor + 1);
    }
  }

  /** The built automaton: state 0 is the initial state; no two states
      share a kernel; every shift entry lists, for its state's sorted shift
      symbols, the state whose core is that symbol and its kernel; every
      reduction entry lists its state's completed rules; entries appear in
      strictly increasing state order; every state with a shift symbol or a
      completed rule has its entry; every other state is the target of a
      shift from a lower-numbered state. */
  lemma BuildCorrect(g: Grammar, cl: seq<int> -> seq<int>)
    requires WellFormed(g) && ClosureOk(g, cl)
    requires Build(g, cl).Some?
    ensures var a := Build(g, cl).value;
      && 1 <= |a.states| <= MaxStates
      && a.states[0] == Core(0, InitialItems(g))
      && DistinctStates(a.states)
      && (forall q :: 0 <= q < |a.shifts| ==> ShiftOk(g, cl, a.states, a.shifts[q]))
      && (forall q :: 0 <= q < |a.reductions| ==> ReductionOk(g, cl, a.states, a.reductions[q]))
      && (forall p, q :: 0 <= p < q < |a.shifts| ==> a.shifts[p].state < a.shifts[q].state)
      && (forall p, q :: 0 <= p < q < |a.reductions| ==> a.reductions[p].state < a.reductions[q].state)
      && (forall s :: 0 <= s < |a.states| && ShiftSymbols(g, cl(a.states[s].items)) != [] ==>
            HasShifts(a.shifts, s))
      && (forall s :: 0 <= s < |a.states| && ReductionRules(g, cl(a.states[s].items)) != [] ==>
            HasReductions(a.reductions, s))
      && (forall i :: 1 <= i < |a.states| ==> ShiftedInto(a.shifts, i))
  {
    var init := Automaton([Core(0, InitialItems(g))], [], []);
    InitialShaped(g);
    assert Consistent(g, cl, init, 0);
    ExploreKeeps(g, cl, init, 0);
    var a := Build(g, cl).value;
    assert a.states[0] == Core(0, InitialItems(g));
  }
}
