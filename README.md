# LR(0) automaton construction of the racc parser generator

This project models `src/lr0.rs` of racc in Dafny and proves properties of the model. That file builds the canonical LR(0) collection of a
flattened grammar. In the grammar, `ritem` holds every right-hand side one after another. Each entry is a symbol id (`>= 0`) or `-r`, which closes rule `r`. An *item* is an index into `ritem`.

The modules follow the structure of the source:

- `Grammars` (`grammar.dfy`): the grammar record and the well-formedness conditions the construction relies on.
- `Derives` (`derives.dfy`): `set_derives`, as a method with push loops, proved against `Layout`, a specification of the table it builds. `DerivesTable` states the resulting layout in plain terms: spans in symbol order, each closed by `-1`.
- `Nullable` (`nullable.dfy`): `set_nullable`, written as its `done_flag` loop, its pass over the items and its inner `loop`. It is proved to terminate and to yield the least set closed under the rules.
- `ShiftSort` (`sort.dfy`): `sort_shift_symbols`, an in-place insertion sort on an `array`. It is proved sorted, a permutation, and equal to the functional `InsertionSort`.
- `KernelArena` (`arena.dfy`): the arena setup inside `compute_lr0`. It counts each symbol's occurrences and takes prefix sums as region bases. The regions are proved disjoint and to lie inside the buffer.
- `Automaton` (`automaton.dfy`): the specification. It defines the successor kernel of an item set for a symbol, its shift symbols and its completed rules. It also defines how a kernel is resolved to a state, one step of the work list (`Step`) and the whole construction (`Build`) as functions.
- `AutomatonFacts` (`automaton_facts.dfy`): what `Build` guarantees:
  - distinct states;
  - correct, complete shift and reduction entries in state order;
  - every state other than 0 is reached by a shift.
- `KernelStaging` (`staging.dfy`): how `new_item_sets` fills the arena, one item at a time, as lemmas over the arrays' contents.
- `Lr0` (`lr0.dfy`): the imperative construction. `LR0State` is a class with the `states` and `stateSet` fields and the `kernelEnd`/`kernelItems` arrays. Its methods `GetState`, `NewItemSets`, `AppendStates` and `ProcessState` update these in place. `ProcessAll` is the work-list loop of `compute_lr0`. `ComputeLR0` sets up the tables, runs `ProcessAll` and is proved to return exactly `Build`, failing exactly when `Build` does.
- `Example` (`example.dfy`): the grammar `S' -> S`, `S -> a`, `S -> ε`, worked through `Build`. It has three states. State 0 shifts `a` to state 1 and `S` to state 2. Each state reduces one rule.

The records of the source (`src/lr0.rs:8-37`) are datatypes:
- `Automaton.Core`: a state's accessing symbol and its kernel items;
- `Automaton.Shifts`: a state and its shift targets;
- `Automaton.Reductions`: a state and the rules it reduces;
- `Lr0.LR0Output`: states, shifts, reductions, the nullable bits, `derives` and `derives_rules`;
- `Lr0.LR0Result`: `LR0Output`, or the `TooManyStates` failure.

`Automaton.Automaton` groups the first three lists; `Build` returns one.

The closure of a kernel (`closure` with `set_first_derives`) is a function parameter `cl`. Its contract `ClosureOk` says every result is a strictly increasing list of valid items. Strictness is what keeps each staged kernel inside its arena region.

`WellFormed` holds the conditions on the grammar:
- the last `ritem` entry closes a rule;
- ids are in range;
- every `rrhs[r]` begins a right-hand side.

Because `-r` cannot name rule 0, an end-of-rule entry names a rule in `[1, nrules)`. The model follows the code here. The example uses the usual layout in which rule 1 is a placeholder whose right-hand side is item 0.

## Model

| member | source | states |
|---|---|---|
| ShiftSort.SortShiftSymbols | src/lr0.rs:63-74 | after the call the array is sorted, is a permutation of its old contents, and equals `InsertionSort` of them |
| ShiftSort.InsertSymbol | src/lr0.rs:66-72 | one outer iteration: with `a[..i]` sorted, moving `a[i]` down past larger entries leaves `a[..i+1]` sorted and a permutation of its old contents, and `a[i+1..]` unchanged |
| ShiftSort.ShiftLarger | src/lr0.rs:68-71 | the inner `while`: stops at the first entry not larger than the lifted symbol, with the entries it passed moved one place right, the prefix sorted around the hole, the contents kept, and nothing past `i` touched |
| ShiftSort.MoveUp | src/lr0.rs:68-71 | one inner step: copying the larger entry one place right moves the hole one place left and keeps everything the inner loop promises |
| ShiftSort.SameSuffix | src/lr0.rs:66-72 | an arrangement that keeps every entry past `i` keeps the multiset of the first `i + 1` entries |
| ShiftSort.InsertionSort | src/lr0.rs:63-74 | the functional sort yields a sorted permutation of its input |
| ShiftSort.Insert | src/lr0.rs:68-72 | inserting into a sorted list keeps it sorted and adds exactly one copy of the element |
| ShiftSort.SortedUnique | src/lr0.rs:63-74 | two sorted permutations of the same list are equal, so the in-place sort's result is determined by its input |
| Derives.SetDerives | src/lr0.rs:379-399 | `derives_rules` is exactly `Layout`: the start symbol's span begins at 0, each nonterminal's span starts right after the previous one's `-1`, lists exactly its rules in ascending order and is closed by `-1`, and the table ends with the last `-1`; `derives[s]` is where `s`'s span starts; entries below the start symbol stay 0; exactly one `-1` per nonterminal; every rule of a nonterminal occurs exactly once |
| Derives.RulesOfExactly | src/lr0.rs:388-392 | one scan of the rule table collects exactly the rules with that left-hand side, strictly ascending |
| Derives.RulesOfCount | src/lr0.rs:388-392 | a rule occurs once in its left-hand side's list and nowhere else |
| Derives.LayoutSpan | src/lr0.rs:386-394 | each processed nonterminal owns the span that starts where the table stood before it: its rules, then `-1` |
| Derives.LayoutPrefix | src/lr0.rs:386-394 | processing a nonterminal only appends to the table |
| Derives.LayoutTerminators | src/lr0.rs:393 | the table holds exactly one `-1` per processed nonterminal |
| Derives.LayoutRuleOnce | src/lr0.rs:386-394 | a rule whose left-hand side has been processed occurs exactly once in the table, any other rule not at all |
| Derives.TableFromLayout | src/lr0.rs:383-394 | the layout above, read off the finished table: first span at 0, consecutive spans, the table's length, the spans' contents, one `-1` per nonterminal and every rule once |
| Derives.LayoutLength | src/lr0.rs:386-394 | processing one more nonterminal grows the table by its number of rules plus one |
| Derives.LastSpan | src/lr0.rs:386-394 | the finished table ends right after the last nonterminal's span |
| Derives.OccurrencesAppend | src/lr0.rs:390-393 | occurrence counts add up over concatenation, as pushes extend the table |
| Nullable.SetNullable | src/lr0.rs:419-461 | the returned bits are closed (every scanned rule whose right-hand side is all nullable has a nullable left side), and every set bit is justified by such a rule over earlier bits; the loop terminates because each pass that does not end it sets a bit |
| Nullable.NullablePass | src/lr0.rs:425-448 | one pass only sets bits, keeps every bit justified, and either sets none (and then the bits are closed) or lowers the number of clear bits |
| Nullable.VisitRule | src/lr0.rs:428-447 | one rule of a pass: scans to the rule's end and keeps the pass invariant one rule further |
| Nullable.ScanRule | src/lr0.rs:430-439 | the inner loop stops at the rule's end-of-rule entry, and `empty` holds exactly when every symbol scanned is nullable |
| Nullable.RuleEnd | src/lr0.rs:430-439 | the scan from an item reaches an end-of-rule entry, and every entry before it is a symbol |
| Nullable.MarkStep | src/lr0.rs:440-445 | marking the left side of an all-nullable rule keeps the pass invariant, with a bit now set |
| Nullable.KeepStep | src/lr0.rs:440-447 | a rule that marks nothing keeps the pass invariant |
| Nullable.ClosedPastRule | src/lr0.rs:440-447 | a satisfied rule extends the closed prefix past its end, since no scan starts inside a right-hand side |
| Nullable.JustifyNew | src/lr0.rs:440-444 | a newly set bit is justified by the rule just scanned |
| Nullable.CountFalseSet | src/lr0.rs:442-444 | setting a clear bit lowers the count of clear bits by one (the termination measure) |
| Nullable.NullableIsLeast | src/lr0.rs:419-449 | every symbol marked nullable is in every set of symbols closed under the rules |
| Nullable.NullableIff | src/lr0.rs:419-449 | a symbol is marked exactly when some scanned rule with that left side has an all-nullable right-hand side |
| Nullable.MarkedThrough | src/lr0.rs:440-445 | the rule a symbol was marked through scans from a rule start, has that symbol as its left side and has an all-marked right-hand side |
| KernelArena.CountSymbols | src/lr0.rs:100-108 | the counting pass yields each symbol's occurrence count and the number of symbol items |
| KernelArena.AllocateKernelArena | src/lr0.rs:100-117 | `kernelBase[s]` is the sum of the counts of the symbols below `s`; regions are disjoint, in symbol order, and lie inside the `kernelItemsCount` buffer |
| KernelArena.RegionsDisjoint | src/lr0.rs:109-117 | the regions tile the buffer: each ends no later than the next begins, and the last ends at the number of symbol items |
| KernelArena.BaseCovers | src/lr0.rs:109-117 | the regions of the symbols below `m` together hold exactly the items whose symbol is below `m` |
| KernelArena.BaseMonotone | src/lr0.rs:112-115 | a region ends no later than any later symbol's region begins |
| Automaton.KernelShape | src/lr0.rs:331-342 | gives `Kernel` its meaning: every staged item directly follows an occurrence of its symbol and is a valid item |
| Automaton.KernelFits | src/lr0.rs:334-342 | a kernel drawn from a strictly increasing item set has at most as many entries as its symbol has occurrences, so it fits its region |
| Automaton.KernelAppend | src/lr0.rs:331-342 | one more item extends exactly the kernel of the symbol after its dot |
| Automaton.ShiftSymbolsExactly | src/lr0.rs:331-338 | gives `ShiftSymbols` its meaning: a symbol is a shift symbol exactly when it is positive and its kernel is non-empty; each is listed once |
| Automaton.ReductionRules | src/lr0.rs:356-364 | at most one completed rule per item; `ReductionRulesExactly` states which rules |
| Automaton.ReductionRulesExactly | src/lr0.rs:356-364 | a rule is reduced exactly when some item of the set is its end; every such rule is in range |
| Automaton.FindState | src/lr0.rs:212-227 | the lowest-numbered state with the kernel, or -1 when none has it |
| Automaton.ResolveState | src/lr0.rs:203-246 | returns the existing state with the kernel and leaves the states unchanged, or appends exactly `Core(sym, k)` and returns the old length; fails exactly when a new state is needed and there are already 0x7fff |
| Automaton.ResolveAll | src/lr0.rs:79-90 | one target per shift symbol, each a state whose kernel is that symbol's successor kernel; states are only appended, and every appended state is a target |
| Automaton.Step | src/lr0.rs:149-188 | one work-list iteration only appends states and keeps their number within the cap |
| Automaton.Explore | src/lr0.rs:149-188 | running the work list from a cursor only appends states and stays within the cap; `ExploreKeeps` gives the invariant it keeps |
| Automaton.InitialItems | src/lr0.rs:253-285 | the initial kernel has one item per rule of the start symbol, each the start of a right-hand side |
| Automaton.Build | src/lr0.rs:143-188 | the construction yields at least one state and at most the cap, with state 0 the initial state; `BuildCorrect` gives the full meaning |
| Automaton.RuleStarts | src/lr0.rs:266-279 | the initial kernel has one item per rule of the start symbol: the start of its right-hand side |
| AutomatonFacts.BuildCorrect | src/lr0.rs:92-199 | the automaton built has state 0 with accessing symbol 0 and the initial kernel; distinct kernels; correct shift and reduction entries; entries in strictly increasing state order; every state with a shift symbol or completed rule has its entry; every other state is the target of a shift from a lower-numbered state |
| AutomatonFacts.ExploreKeeps | src/lr0.rs:149-188 | the rest of the work list keeps the construction invariant until every state is processed |
| AutomatonFacts.StepKeeps | src/lr0.rs:149-188 | one iteration keeps the construction invariant, one state further |
| AutomatonFacts.StepUnfold | src/lr0.rs:157-179 | a successful iteration appends the resolved states, one shift entry when there are shift symbols, and one reduction entry when there are completed rules |
| AutomatonFacts.SortedShiftSymbols | src/lr0.rs:166-167 | the sorted shift symbols are exactly the positive symbols with a non-empty kernel, strictly ascending |
| AutomatonFacts.SortedDistinct | src/lr0.rs:167 | sorting a list without repeats yields a strictly ascending list with the same members and length |
| AutomatonFacts.ResolveStateKeeps | src/lr0.rs:229-240 | resolving a well-shaped kernel keeps the states well shaped and distinct; the resolved state's core is the symbol and the kernel |
| AutomatonFacts.ResolveAllKeeps | src/lr0.rs:83-87 | resolving every shift symbol keeps the states shaped and distinct; each target's core is its symbol and kernel |
| AutomatonFacts.ResolveAllNext | src/lr0.rs:83-86 | resolving one more symbol extends the resolution of the prefix by that symbol's target, or fails with it |
| AutomatonFacts.ResolveAllFails | src/lr0.rs:83-87 | once resolving a prefix fails, resolving all the symbols fails |
| AutomatonFacts.TargetCores | src/lr0.rs:83-87 | the earlier targets keep their cores as states are appended, and the last target joins them |
| AutomatonFacts.SuccessorShaped | src/lr0.rs:331-342 | a non-empty successor kernel of a positive symbol has the shape of a state reached by that symbol |
| AutomatonFacts.NotInitial | src/lr0.rs:209-227 | no successor kernel equals the initial kernel, which is why state 0 never needs to be in the index |
| AutomatonFacts.InitialShaped | src/lr0.rs:253-285 | every item of the initial kernel starts a rule, so the initial state alone is well shaped |
| AutomatonFacts.ShiftOkExtend | src/lr0.rs:173-179 | a recorded shift entry stays correct when states are only appended |
| AutomatonFacts.EntriesExtend | src/lr0.rs:161-179 | appending this state's entries keeps all entries correct and in state order |
| AutomatonFacts.ShiftsExtend | src/lr0.rs:173-179 | appending a shift entry for the current state keeps shift entries correct and in strictly increasing state order |
| AutomatonFacts.StateOrderExtend | src/lr0.rs:173-179 | appending an entry for the current state keeps the entries in strictly increasing state order |
| AutomatonFacts.ReductionsExtend | src/lr0.rs:366-372 | appending a reduction entry for the current state keeps reduction entries correct and in strictly increasing state order |
| AutomatonFacts.CoveredExtend | src/lr0.rs:161-179 | after an iteration the current state has its shift entry and reduction entry whenever it needs them |
| AutomatonFacts.ReachedExtend | src/lr0.rs:170-179 | every newly appended state is a target of the current state's shift entry |
| KernelStaging.StageSkip | src/lr0.rs:331-333 | an item whose next entry is not a positive symbol changes nothing |
| KernelStaging.StageShift | src/lr0.rs:333-342 | an item before symbol `sym > 0` appends its successor item to `sym`'s region (at the base when `sym` is new, which is then noted), and keeps every other region and every untouched mark |
| KernelStaging.StageSlot | src/lr0.rs:334-338 | `kernel_end[sym] == -1` exactly when `sym` is not yet noted, and the next slot lies inside `sym`'s region |
| KernelStaging.StageKernels | src/lr0.rs:334-342 | after the write, every noted symbol's region holds its kernel of the longer prefix |
| KernelStaging.StageSame | src/lr0.rs:340-342 | the written symbol's region holds its extended kernel |
| KernelStaging.StageOther | src/lr0.rs:340-342 | the write does not disturb the region of any other noted symbol |
| KernelStaging.PrefixStep | src/lr0.rs:331-344 | one more item extends the shift symbols (by its symbol when new and positive) and that symbol's kernel |
| KernelStaging.WriteNext | src/lr0.rs:340-342 | writing one past a staged kernel and advancing the end stages the extended kernel |
| KernelStaging.WriteElsewhere | src/lr0.rs:340-342 | a write outside a region keeps the kernel staged there |
| Lr0.LR0State.constructor | src/lr0.rs:119-126 | the working state starts with the initial state alone, an empty index, every region untouched |
| Lr0.LR0State.GetState | src/lr0.rs:203-246 | agrees with `ResolveState` on the staged kernel, failing exactly where it does, and keeps the index sound and complete |
| Lr0.LR0State.NewItemSets | src/lr0.rs:322-345 | returns the shift symbols in order of first occurrence, stages each one's successor kernel in its region, and marks every other symbol untouched |
| Lr0.LR0State.StageItem | src/lr0.rs:331-344 | one item of the loop keeps the staging invariant one item further |
| Lr0.LR0State.AppendStates | src/lr0.rs:79-90 | agrees with `ResolveAll`, failing exactly where it does |
| Lr0.LR0State.ResolveNext | src/lr0.rs:84-88 | one more shift symbol resolved extends `ResolveAll` over the next prefix of the symbols, failing exactly where it does |
| Lr0.LR0State.ProcessAll | src/lr0.rs:143-188 | the work-list loop yields exactly the states, shifts and reductions of `Build`, failing exactly where it does |
| Lr0.LR0State.ProcessState | src/lr0.rs:149-188 | one iteration of the work list computes `Step`, failing exactly where it does |
| Lr0.AddState | src/lr0.rs:231-240 | appending a new well-shaped state and listing it under its first item keeps the states shaped and distinct and the index sound and complete |
| Lr0.FoundIsFirst | src/lr0.rs:212-225 | in distinct states, the state found by comparison is the one `FindState` names |
| Lr0.NotListedIsNew | src/lr0.rs:211-229 | a kernel absent from its bucket is absent from every state |
| Lr0.SaveReductions | src/lr0.rs:347-376 | appends one entry holding the rules completed in the item set, in item order, exactly when there are any |
| Lr0.InitializeStates | src/lr0.rs:253-285 | state 0 has accessing symbol 0 and, in rule order, the right-hand side start of each rule of the start symbol |
| Lr0.StartList | src/lr0.rs:257-264 | the start symbol's span holds its rules, then `-1`, and no negative entry before it |
| Lr0.ComputeLR0 | src/lr0.rs:92-199 | returns states, shifts and reductions equal to `Build`, or fails exactly when `Build` does; also returns a closed, justified nullable set and a derivation table equal to `Layout` with the layout of `DerivesTable` |
| Lr0.SortedStaged | src/lr0.rs:166-167 | after sorting, every shift symbol still has its successor kernel staged |
| Lr0.StepIs | src/lr0.rs:157-179 | the entries the driver appends are what `Step` computes |
| Lr0.StepFails | src/lr0.rs:170 | a failed resolution is a failed `Step` |
| Lr0.SortedSymbols | src/lr0.rs:167 | sorting the shift symbols in place yields `InsertionSort` of them |
| Example.ExampleBuild | src/lr0.rs:92-199 | for the grammar `S' -> S`, `S -> a`, `S -> ε`, `Build` yields three states, one shift entry `0: [1, 2]` and reductions `0: [4]`, `1: [3]`, `2: [2]` |

## Left out

- `closure` and `set_first_derives` are not part of this model. The closure is the parameter `cl`, constrained by `ClosureOk`. The `rule_set` scratch bit set that goes with it is left out.
- `print_core`, `print_derives` and the `debug!` lines only produce diagnostics, so they are left out.
- Building and validating the `Grammar` happen elsewhere. Here the grammar is a record constrained by `WellFormed`.
- `Bitv`/`Bitv32` are modelled as `seq<bool>`.
- Integers are unbounded. The `i16` and `uint` casts are not modelled, apart from the `0x7fff` cap on the number of states.
- `Vec::with_capacity` and the `clear()` calls only reuse memory; they do not change results, so they are left out. So is the `core_nitems` loop of `initialize_states` (lines 260-263), which only measures that capacity.
- `LR0Output.nstates` only returns the length of `states`, so it has no member of its own.
- The `assert!` of `get_state` at line 231 aborts the program when a new state is needed and there are already 0x7fff states. In the model, that case is the `TooManyStates` result of `ComputeLR0`, and `None` in `ResolveState`, `ResolveAll`, `Step` and `Build`.
- The `assert!` checks that scratch vectors start empty (lines 81, 150, 324, 349) hold trivially: the model's scratch values are fresh.
- Lr0.ComputeLR0: when a step fails, nothing of the partial result is returned, because the source aborts at that point.
- Lr0.LR0State.NewItemSets: `shift_symbol` is the method's result rather than a caller's vector cleared between calls.
- Lr0.SortedSymbols: the sort runs on a fresh array holding the shift symbols. The caller's vector is a sequence value, so the model does not capture aliasing between them.
