/** The flattened grammar that the LR(0) construction reads.  Building and
    validating it is done elsewhere; here it is a record together with the
    well-formedness conditions the construction relies on. */
module Grammars {

  /** `ritem` holds the right-hand sides of all rules one after another; an
      entry is either a symbol id (>= 0) or `-r`, which ends rule `r`.  An
      item is an index into `ritem`: the dot stands just before that entry.
      `rlhs[r]` is the left-hand symbol of rule `r`, `rrhs[r]` the item where
      its right-hand side begins.  Symbols below `startSymbol` are terminals. */
  datatype Grammar = Grammar(
    nsyms: nat,
    nrules: nat,
    nitems: nat,
    startSymbol: nat,
    ritem: seq<int>,
    rlhs: seq<int>,
    rrhs: seq<int>)

  /** Item `x` is where some rule's right-hand side begins: the first item,
      or one just after an end-of-rule entry. */
  predicate IsRuleStart(g: Grammar, x: int)
    requires |g.ritem| == g.nitems
  {
    0 <= x < g.nitems && (x == 0 || g.ritem[x - 1] < 0)
  }

  ghost predicate WellFormed(g: Grammar)
  {
    && |g.ritem| == g.nitems
    && |g.rlhs| == g.nrules
    && |g.rrhs| == g.nrules
    && g.startSymbol < g.nsyms
    // the last entry ends a rule, so every scan for an end of rule stops
    && g.nitems > 0 && g.ritem[g.nitems - 1] < 0
    // symbol ids are in range; `-r` names a rule (rule 0 cannot be written as `-0`)
    && (forall i :: 0 <= i < g.nitems ==> g.ritem[i] < g.nsyms)
    && (forall i :: 0 <= i < g.nitems && g.ritem[i] < 0 ==> 1 <= -g.ritem[i] < g.nrules)
    && (forall r :: 0 <= r < g.nrules ==> 0 <= g.rlhs[r] < g.nsyms)
    // every right-hand side begins at the start of a rule
    && (forall r :: 0 <= r < g.nrules ==> IsRuleStart(g, g.rrhs[r]))
  }
}
