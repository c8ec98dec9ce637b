/** A worked grammar: S' -> S, S -> a, S -> (empty), laid out as the
    construction expects.  Symbols: 0 end marker, 1 `a`, 2 S' (the start
    symbol), 3 S.  Rule 1 is the placeholder whose empty right-hand side is
    item 0; rules 2, 3 and 4 are the three productions. */
module Example {
  import opened Grammars
  import opened Derives
  import opened ShiftSort
  import opened Automaton

  const G := Grammar(
    nsyms := 4,
    nrules := 5,
    nitems := 6,
    startSymbol := 2,
    ritem := [-1, 3, -2, 1, -3, -4],
    rlhs := [0, 0, 2, 3, 3],
    rrhs := [0, 0, 1, 3, 5])

  /** The closure of the three kernels that occur: S' -> .S adds both
      S-rules; the other kernels close on themselves. */
  function Cl(k: seq<int>): seq<int>
  {
    if k == [1] then [1, 3, 5]
    else if k == [4] then [4]
    else if k == [2] then [2]
    else []
  }

  lemma ExampleWellFormed()
    ensures WellFormed(G) && ClosureOk(G, Cl)
  {
    ClosureFits();
  }

  /** Every closure lists valid items in increasing order. */
  lemma ClosureFits()
    ensures ClosureOk(G, Cl)
  {
  }

  /** The initial state's closure shifts S (first met) and `a`, and
      reduces rule 4. */
  lemma InitialShifts()
    ensures ShiftSymbols(G, [1, 3, 5]) == [3, 1]
  {
    assert [1, 3, 5][..2] == [1, 3];
    assert [1, 3][..1] == [1];
    assert [1][..0] == [];
    assert ShiftSymbols(G, [1]) == [3];
    assert ShiftSymbols(G, [1, 3]) == [3, 1];
  }

  lemma InitialReductions()
    ensures ReductionRules(G, [1, 3, 5]) == [4]
  {
    assert [1, 3, 5][..2] == [1, 3];
    assert [1, 3][..1] == [1];
    assert [1][..0] == [];
    assert ReductionRules(G, [1, 3]) == [];
  }

  lemma InitialOrder()
    ensures InsertionSort([3, 1]) == [1, 3]
  {
    SortPair(3, 1);
  }

  lemma SortPair(x: int, y: int)
    requires y <= x
    ensures InsertionSort([x, y]) == [y, x]
  {
    assert [x, y][..1] == [x] && [x][..0] == [];
    assert InsertionSort([x]) == Insert(x, []) == [x];
    assert Insert(y, [x]) == [y] + [x];
  }

  lemma InitialKernels()
    ensures Kernel(G, [1, 3, 5], 1) == [4] && Kernel(G, [1, 3, 5], 3) == [2]
  {
    assert [1, 3, 5][..2] == [1, 3];
    assert [1, 3][..1] == [1];
    assert [1][..0] == [];
  }

  /** The other two states each reduce one rule and shift nothing. */
  lemma OtherClosures()
    ensures ShiftSymbols(G, [4]) == [] && ReductionRules(G, [4]) == [3]
    ensures ShiftSymbols(G, [2]) == [] && ReductionRules(G, [2]) == [2]
    ensures InsertionSort([]) == []
  {
    assert [4][..0] == [];
    assert [2][..0] == [];
  }

  /** State 0's two successors are new states 1 and 2. */
  lemma InitialTargets()
    ensures ResolveAll(G, [Core(0, [1])], [1, 3, 5], [1, 3]) ==
              Some(([Core(0, [1]), Core(1, [4]), Core(3, [2])], [1, 2]))
  {
    InitialKernels();
    FirstTarget();
    SecondTarget();
    assert [1, 3][..1] == [1];
    assert [1] + [2] == [1, 2];
  }

  lemma FirstTarget()
    ensures ResolveAll(G, [Core(0, [1])], [1, 3, 5], [1]) == Some(([Core(0, [1]), Core(1, [4])], [1]))
  {
    InitialKernels();
    FirstResolved([Core(0, [1])], [1, 3, 5], 1, [4]);
    assert [Core(0, [1])] + [Core(1, [4])] == [Core(0, [1]), Core(1, [4])];
  }

  /** Resolving a single symbol whose kernel is new appends one state. */
  lemma FirstResolved(states: seq<Core>, items: seq<int>, sym: int, k: seq<int>)
    requires ValidItems(G, items) && Kernel(G, items, sym) == k
    requires |states| < MaxStates && forall i :: 0 <= i < |states| ==> states[i].items != k
    ensures ResolveAll(G, states, items, [sym]) == Some((states + [Core(sym, k)], [|states|]))
  {
    NewState(states, sym, k);
    assert [sym][..0] == [];
    assert [] + [|states|] == [|states|];
  }

  lemma SecondTarget()
    ensures ResolveState([Core(0, [1]), Core(1, [4])], 3, [2]) ==
              Some(([Core(0, [1]), Core(1, [4]), Core(3, [2])], 2))
  {
    NewState([Core(0, [1]), Core(1, [4])], 3, [2]);
    assert [Core(0, [1]), Core(1, [4])] + [Core(3, [2])] == [Core(0, [1]), Core(1, [4]), Core(3, [2])];
  }

  /** A kernel that no state has yet becomes the next state. */
  lemma NewState(states: seq<Core>, sym: int, k: seq<int>)
    requires |states| < MaxStates
    requires forall i :: 0 <= i < |states| ==> states[i].items != k
    ensures ResolveState(states, sym, k) == Some((states + [Core(sym, k)], |states|))
  {
  }

  lemma FirstStep()
    ensures ClosureOk(G, Cl)
    ensures Step(G, Cl, Automaton([Core(0, [1])], [], []), 0) ==
              Some(Automaton([Core(0, [1]), Core(1, [4]), Core(3, [2])], [Shifts(0, [1, 2])], [Reductions(0, [4])]))
  {
    ClosureFits();
    var a := Automaton([Core(0, [1])], [], []);
    var states := [Core(0, [1]), Core(1, [4]), Core(3, [2])];
    assert Cl(a.states[0].items) == [1, 3, 5];
    assert ReductionRules(G, [1, 3, 5]) == [4] by { InitialReductions(); }
    assert InsertionSort(ShiftSymbols(G, [1, 3, 5])) == [1, 3] by { InitialShifts(); InitialOrder(); }
    assert ResolveAll(G, a.states, [1, 3, 5], [1, 3]) == Some((states, [1, 2])) by { InitialTargets(); }
    StepFrom(G, Cl, a, 0, [1, 3, 5], [4], [1, 3], states, [1, 2]);
    Singleton(Shifts(0, [1, 2]));
    Singleton(Reductions(0, [4]));
  }

  lemma Singleton<T>(x: T)
    ensures [] + [x] == [x]
  {
  }

  /** A step whose closure, reductions, sorted shift symbols and targets are
      known. */
  lemma StepFrom(g: Grammar, cl: seq<int> -> seq<int>, a: Automaton, cursor: nat, itemSet: seq<int>,
                 red: seq<int>, syms: seq<int>, states: seq<Core>, targets: seq<int>)
    requires ClosureOk(g, cl) && cursor < |a.states| && cl(a.states[cursor].items) == itemSet
    requires ReductionRules(g, itemSet) == red && InsertionSort(ShiftSymbols(g, itemSet)) == syms
    requires ResolveAll(g, a.states, itemSet, syms) == Some((states, targets))
    ensures Step(g, cl, a, cursor) ==
              Some(Automaton(states, if syms != [] then a.shifts + [Shifts(cursor, targets)] else a.shifts,
                             if red != [] then a.reductions + [Reductions(cursor, red)] else a.reductions))
  {
  }

  /** States 1 and 2 shift nothing and reduce one rule each. */
  lemma LaterSteps(a: Automaton)
    requires a.states == [Core(0, [1]), Core(1, [4]), Core(3, [2])]
    ensures ClosureOk(G, Cl)
    ensures Step(G, Cl, a, 1) == Some(a.(reductions := a.reductions + [Reductions(1, [3])]))
    ensures Step(G, Cl, a, 2) == Some(a.(reductions := a.reductions + [Reductions(2, [2])]))
  {
    StepAt(a, 1, [4], [3]);
    StepAt(a, 2, [2], [2]);
  }

  lemma StepAt(a: Automaton, cursor: nat, k: seq<int>, red: seq<int>)
    requires cursor < |a.states| && a.states[cursor].items == k && (k == [4] || k == [2])
    requires red == if k == [4] then [3] else [2]
    ensures ClosureOk(G, Cl)
    ensures Step(G, Cl, a, cursor) == Some(a.(reductions := a.reductions + [Reductions(cursor, red)]))
  {
    ClosureFits();
    OtherClosures();
    QuietStep(G, Cl, a, cursor, k, red);
  }

  /** A step on a state that shifts nothing only records its reductions. */
  lemma QuietStep(g: Grammar, cl: seq<int> -> seq<int>, a: Automaton, cursor: nat, itemSet: seq<int>, red: seq<int>)
    requires ClosureOk(g, cl) && cursor < |a.states| && cl(a.states[cursor].items) == itemSet
    requires ReductionRules(g, itemSet) == red && red != [] && ShiftSymbols(g, itemSet) == []
    ensures Step(g, cl, a, cursor) == Some(a.(reductions := a.reductions + [Reductions(cursor, red)]))
  {
    assert InsertionSort([]) == [];
    assert ResolveAll(g, a.states, itemSet, []) == Some((a.states, []));
    StepFrom(g, cl, a, cursor, itemSet, red, [], a.states, []);
  }

  lemma InitialKernel()
    ensures WellFormed(G) && InitialItems(G) == [1]
  {
    ExampleWellFormed();
    assert RulesOf(G, 2, 5) == [2];
  }

  /** One turn of the work list, when the step succeeds. */
  lemma ExploreTurn(a: Automaton, cursor: nat, b: Automaton)
    requires ClosureOk(G, Cl) && cursor < |a.states| <= MaxStates && |b.states| <= MaxStates
    requires Step(G, Cl, a, cursor) == Some(b)
    ensures Explore(G, Cl, a, cursor) == Explore(G, Cl, b, cursor + 1)
  {
  }

  lemma BuildStarts()
    ensures WellFormed(G) && ClosureOk(G, Cl)
    ensures Build(G, Cl) == Explore(G, Cl, Automaton([Core(0, [1])], [], []), 0)
  {
    InitialKernel();
    ExampleWellFormed();
  }

  lemma ExploreEnds(a: Automaton)
    requires |a.states| == 3
    ensures ClosureOk(G, Cl)
    ensures Explore(G, Cl, a, 3) == Some(a)
  {
    ClosureFits();
  }

  /** Three successful turns that leave three states finish the work list. */
  lemma ThreeTurns(a0: Automaton, a1: Automaton, a2: Automaton, a3: Automaton)
    requires ClosureOk(G, Cl) && |a0.states| == 1 && |a1.states| == |a2.states| == |a3.states| == 3
    requires Step(G, Cl, a0, 0) == Some(a1) && Step(G, Cl, a1, 1) == Some(a2) && Step(G, Cl, a2, 2) == Some(a3)
    ensures Explore(G, Cl, a0, 0) == Some(a3)
  {
    ExploreTurn(a0, 0, a1);
    ExploreTurn(a1, 1, a2);
    ExploreTurn(a2, 2, a3);
    ExploreEnds(a3);
  }

  /** Three states: the initial one, the one after `a`, the one after S;
      state 0 shifts `a` to state 1 and S to state 2, and each state reduces
      one rule. */
  lemma ExampleBuild()
    ensures WellFormed(G) && ClosureOk(G, Cl)
    ensures Build(G, Cl) == Some(Automaton(
              [Core(0, [1]), Core(1, [4]), Core(3, [2])],
              [Shifts(0, [1, 2])],
              [Reductions(0, [4]), Reductions(1, [3]), Reductions(2, [2])]))
  {
    BuildStarts();
    ExploreFromStart();
  }

  lemma ExploreFromStart()
    ensures ClosureOk(G, Cl)
    ensures Explore(G, Cl, Automaton([Core(0, [1])], [], []), 0) == Some(Automaton(
              [Core(0, [1]), Core(1, [4]), Core(3, [2])],
              [Shifts(0, [1, 2])],
              [Reductions(0, [4]), Reductions(1, [3]), Reductions(2, [2])]))
  {
    var a0 := Automaton([Core(0, [1])], [], []);
    var a1 := Automaton([Core(0, [1]), Core(1, [4]), Core(3, [2])], [Shifts(0, [1, 2])], [Reductions(0, [4])]);
    var a2 := a1.(reductions := a1.reductions + [Reductions(1, [3])]);
    var a3 := a2.(reductions := a2.reductions + [Reductions(2, [2])]);
    FirstStep();
    LaterSteps(a1);
    LaterSteps(a2);
    ThreeTurns(a0, a1, a2, a3);
    assert a3.reductions == [Reductions(0, [4]), Reductions(1, [3]), Reductions(2, [2])];
  }
}
