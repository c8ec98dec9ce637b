/** The derivation table: for each nonterminal, the rules that have it as
    their left-hand side, stored in one flat vector with a `-1` after each
    nonterminal's list. */
module Derives {
  import opened Grammars

  /** The rules among the first `n` whose left-hand side is `lhs`, in
      ascending order: what one scan of the rule table collects. */
  function RulesOf(g: Grammar, lhs: int, n: nat): seq<int>
    requires n <= |g.rlhs|
  {
    if n == 0 then []
    else RulesOf(g, lhs, n - 1) + (if g.rlhs[n - 1] == lhs then [n - 1] else [])
  }

  /** The contents of `derives_rules` once the nonterminals
      `startSymbol .. hi-1` have been processed. */
  function Layout(g: Grammar, hi: nat): seq<int>
    requires g.startSymbol <= hi
    decreases hi
  {
    if hi == g.startSymbol then []
    else Layout(g, hi - 1) + RulesOf(g, hi - 1, |g.rlhs|) + [-1]
  }

  /** `RulesOf` holds exactly the rules with left-hand side `lhs`, each once
      and in strictly increasing order. */
  lemma {:induction false} RulesOfExactly(g: Grammar, lhs: int, n: nat)
    requires n <= |g.rlhs|
    ensures forall r :: r in RulesOf(g, lhs, n) <==> 0 <= r < n && g.rlhs[r] == lhs
    ensures forall i, j :: 0 <= i < j < |RulesOf(g, lhs, n)| ==>
              RulesOf(g, lhs, n)[i] < RulesOf(g, lhs, n)[j]
  {
    if n > 0 {
      RulesOfExactly(g, lhs, n - 1);
      var prev := RulesOf(g, lhs, n - 1);
      assert forall i :: 0 <= i < |prev| ==> prev[i] < n - 1 by {
        forall i | 0 <= i < |prev| ensures prev[i] < n - 1 {
          assert prev[i] in prev;
        }
      }
    }
  }

  /** How many times `x` occurs in `s`. */
  function Occurrences(s: seq<int>, x: int): nat
  {
    if s == [] then 0 else Occurrences(s[..|s| - 1], x) + if s[|s| - 1] == x then 1 else 0
  }

  lemma {:induction false} OccurrencesAppend(a: seq<int>, b: seq<int>, x: int)
    ensures Occurrences(a + b, x) == Occurrences(a, x) + Occurrences(b, x)
    decreases |b|
  {
    if b == [] {
      assert a + b == a;
    } else {
      var c := b[..|b| - 1];
      assert (a + b)[..|a + b| - 1] == a + c;
      OccurrencesAppend(a, c, x);
    }
  }

  /** A rule occurs in `RulesOf` once if its left-hand side is `lhs` and not
      at all otherwise. */
  lemma {:induction false} RulesOfCount(g: Grammar, lhs: int, n: nat, r: int)
    requires n <= |g.rlhs|
    ensures Occurrences(RulesOf(g, lhs, n), r) == if 0 <= r < n && g.rlhs[r] == lhs then 1 else 0
  {
    if n > 0 {
      RulesOfCount(g, lhs, n - 1, r);
      var tail := if g.rlhs[n - 1] == lhs then [n - 1] else [];
      OccurrencesAppend(RulesOf(g, lhs, n - 1), tail, r);
      assert Occurrences(tail, r) == if g.rlhs[n - 1] == lhs && r == n - 1 then 1 else 0 by {
        assert tail == [] || tail[..0] == [];
      }
    }
  }

  /** `table` holds the list `rules` at offset `at`, closed by `-1`. */
  predicate ListAt(table: seq<int>, at: int, rules: seq<int>)
  {
    0 <= at && at + |rules| < |table| && table[at..at + |rules|] == rules && table[at + |rules|] == -1
  }

  /** An earlier layout is a prefix of a later one: processing a nonterminal
      only appends. */
  lemma {:induction false} LayoutPrefix(g: Grammar, lo: nat, hi: nat)
    requires g.startSymbol <= lo <= hi
    ensures Layout(g, lo) <= Layout(g, hi)
    decreases hi
  {
    if lo < hi {
      LayoutPrefix(g, lo, hi - 1);
    }
  }

  /** Every nonterminal processed so far owns the span that starts at the
      length of the layout before it: its rules, then `-1`. */
  lemma {:induction false} LayoutSpan(g: Grammar, hi: nat, lhs: nat)
    requires g.startSymbol <= lhs < hi
    ensures ListAt(Layout(g, hi), |Layout(g, lhs)|, RulesOf(g, lhs, |g.rlhs|))
  {
    LayoutPrefix(g, lhs + 1, hi);
    var rules := RulesOf(g, lhs, |g.rlhs|);
    var before, upto, all := Layout(g, lhs), Layout(g, lhs + 1), Layout(g, hi);
    assert upto == before + rules + [-1];
    assert upto[|before|..|before| + |rules|] == rules;
    SliceOfPrefix(upto, all, |before|, |before| + |rules|);
  }

  lemma SliceOfPrefix(a: seq<int>, b: seq<int>, i: nat, j: nat)
    requires a <= b && i <= j <= |a|
    ensures b[i..j] == a[i..j]
  {
    assert forall k :: i <= k < j ==> b[k] == a[k];
  }

  /** One more nonterminal processed adds its rules and one `-1`. */
  lemma CountStep(g: Grammar, hi: nat, x: int)
    requires g.startSymbol < hi
    ensures Occurrences(Layout(g, hi), x) ==
              Occurrences(Layout(g, hi - 1), x) + Occurrences(RulesOf(g, hi - 1, |g.rlhs|), x) + if x == -1 then 1 else 0
  {
    var prev, rules := Layout(g, hi - 1), RulesOf(g, hi - 1, |g.rlhs|);
    OccurrencesAppend(prev + rules, [-1], x);
    OccurrencesAppend(prev, rules, x);
    assert [-1][..0] == [];
  }

  /** Exactly one `-1` per processed nonterminal. */
  lemma {:induction false} LayoutTerminators(g: Grammar, hi: nat)
    requires g.startSymbol <= hi
    ensures Occurrences(Layout(g, hi), -1) == hi - g.startSymbol
    decreases hi
  {
    if hi > g.startSymbol {
      assert Occurrences(Layout(g, hi - 1), -1) == hi - 1 - g.startSymbol by {
        LayoutTerminators(g, hi - 1);
      }
      assert Occurrences(RulesOf(g, hi - 1, |g.rlhs|), -1) == 0 by {
        RulesOfCount(g, hi - 1, |g.rlhs|, -1);
      }
      assert Occurrences(Layout(g, hi), -1) ==
               Occurrences(Layout(g, hi - 1), -1) + Occurrences(RulesOf(g, hi - 1, |g.rlhs|), -1) + 1 by {
        CountStep(g, hi, -1);
      }
    } else {
      assert Layout(g, hi) == [];
    }
  }

  /** Every rule whose left-hand side is a processed nonterminal occurs
      exactly once; any other rule not at all. */
  lemma {:induction false} LayoutRuleOnce(g: Grammar, hi: nat, r: int)
    requires g.startSymbol <= hi
    requires 0 <= r < |g.rlhs|
    ensures Occurrences(Layout(g, hi), r) == if g.startSymbol <= g.rlhs[r] < hi then 1 else 0
    decreases hi
  {
    if hi > g.startSymbol {
      var before := Occurrences(Layout(g, hi - 1), r);
      var here := Occurrences(RulesOf(g, hi - 1, |g.rlhs|), r);
      assert before == if g.startSymbol <= g.rlhs[r] < hi - 1 then 1 else 0 by {
        LayoutRuleOnce(g, hi - 1, r);
      }
      assert here == if g.rlhs[r] == hi - 1 then 1 else 0 by {
        RulesOfCount(g, hi - 1, |g.rlhs|, r);
      }
      assert Occurrences(Layout(g, hi), r) == before + here by {
        CountStep(g, hi, r);
      }
    } else {
      assert Layout(g, hi) == [];
    }
  }

  /** The derivation table as `set_derives` leaves it: the first
      nonterminal's list starts at 0, each later list starts right after the
      previous list's `-1`, and the table ends with the last `-1`; each list
      holds exactly that nonterminal's rules in ascending order; there is
      one `-1` per nonterminal and one occurrence of each such rule; the
      entries below the start symbol are 0. */
  ghost predicate DerivesTable(g: Grammar, derives: seq<int>, derivesRules: seq<int>)
  {
    && g.startSymbol <= g.nsyms && |derives| == g.nsyms && |g.rlhs| == g.nrules
    && (forall s :: 0 <= s < g.startSymbol ==> derives[s] == 0)
    && (g.startSymbol < g.nsyms ==> derives[g.startSymbol] == 0)
    && (forall s :: g.startSymbol <= s < g.nsyms - 1 ==>
          derives[s + 1] == derives[s] + |RulesOf(g, s, g.nrules)| + 1)
    && |derivesRules| == (if g.startSymbol < g.nsyms
                          then derives[g.nsyms - 1] + |RulesOf(g, g.nsyms - 1, g.nrules)| + 1 else 0)
    && (forall lhs :: g.startSymbol <= lhs < g.nsyms ==>
          ListAt(derivesRules, derives[lhs], RulesOf(g, lhs, g.nrules)))
    && Occurrences(derivesRules, -1) == g.nsyms - g.startSymbol
    && (forall r :: 0 <= r < g.nrules && g.startSymbol <= g.rlhs[r] ==>
          Occurrences(derivesRules, r) == 1)
  }

  /** The finished layout, with each nonterminal's list starting where the
      layout before it ended, is a derivation table. */
  lemma {:induction false} TableFromLayout(g: Grammar, derives: seq<int>, derivesRules: seq<int>)
    requires g.startSymbol <= g.nsyms && |derives| == g.nsyms && |g.rlhs| == g.nrules
    requires forall s :: 0 <= s < g.startSymbol ==> derives[s] == 0
    requires forall s {:trigger derives[s]} :: g.startSymbol <= s < g.nsyms ==> derives[s] == |Layout(g, s)|
    requires derivesRules == Layout(g, g.nsyms)
    requires forall r :: 0 <= r < g.nrules ==> g.rlhs[r] < g.nsyms
    ensures DerivesTable(g, derives, derivesRules)
  {
    assert forall lhs :: g.startSymbol <= lhs < g.nsyms ==>
             ListAt(derivesRules, derives[lhs], RulesOf(g, lhs, g.nrules)) by {
      forall s | g.startSymbol <= s < g.nsyms
        ensures ListAt(derivesRules, derives[s], RulesOf(g, s, g.nrules))
      {
        LayoutSpan(g, g.nsyms, s);
      }
    }
    assert g.startSymbol < g.nsyms ==> derives[g.startSymbol] == 0;
    assert forall s :: g.startSymbol <= s < g.nsyms - 1 ==>
             derives[s + 1] == derives[s] + |RulesOf(g, s, g.nrules)| + 1 by {
      forall s | g.startSymbol <= s < g.nsyms - 1
        ensures derives[s + 1] == derives[s] + |RulesOf(g, s, g.nrules)| + 1
      {
        LayoutLength(g, s);
      }
    }
    assert |derivesRules| == (if g.startSymbol < g.nsyms
                              then derives[g.nsyms - 1] + |RulesOf(g, g.nsyms - 1, g.nrules)| + 1 else 0) by {
      if g.startSymbol < g.nsyms {
        LastSpan(g, derivesRules);
        assert derives[g.nsyms - 1] == |Layout(g, g.nsyms - 1)|;
      }
    }
    assert Occurrences(derivesRules, -1) == g.nsyms - g.startSymbol by {
      LayoutTerminators(g, g.nsyms);
    }
    assert forall r :: 0 <= r < g.nrules && g.startSymbol <= g.rlhs[r] ==>
             Occurrences(derivesRules, r) == 1 by {
      forall r | 0 <= r < g.nrules && g.startSymbol <= g.rlhs[r]
        ensures Occurrences(derivesRules, r) == 1
      {
        LayoutRuleOnce(g, g.nsyms, r);
      }
    }
  }

  /** The finished table ends with the last nonterminal's list. */
  lemma LastSpan(g: Grammar, derivesRules: seq<int>)
    requires g.startSymbol < g.nsyms && |g.rlhs| == g.nrules && derivesRules == Layout(g, g.nsyms)
    ensures |derivesRules| == |Layout(g, g.nsyms - 1)| + |RulesOf(g, g.nsyms - 1, g.nrules)| + 1
  {
  }

  /** Processing one more nonterminal lengthens the table by its rules and
      one `-1`. */
  lemma LayoutLength(g: Grammar, s: nat)
    requires g.startSymbol <= s && |g.rlhs| == g.nrules
    ensures |Layout(g, s + 1)| == |Layout(g, s)| + |RulesOf(g, s, g.nrules)| + 1
  {
    assert Layout(g, s + 1) == Layout(g, s) + RulesOf(g, s, g.nrules) + [-1];
  }

  /** `set_derives`: for each nonterminal, record where its list starts, push
      every rule it is the left-hand side of, then push `-1`. */
  method SetDerives(g: Grammar) returns (derives: seq<int>, derivesRules: seq<int>)
    requires WellFormed(g)
    ensures derivesRules == Layout(g, g.nsyms) && |derives| == g.nsyms
    ensures forall s :: g.startSymbol <= s < g.nsyms ==> derives[s] == |Layout(g, s)|
    ensures DerivesTable(g, derives, derivesRules)
  {
    derives := seq(g.nsyms, _ => 0);
    derivesRules := [];
    var lhs := g.startSymbol;
    while lhs < g.nsyms
      invariant g.startSymbol <= lhs <= g.nsyms
      invariant |derives| == g.nsyms
      invariant forall s :: 0 <= s < g.startSymbol ==> derives[s] == 0
      invariant forall s {:trigger derives[s]} :: g.startSymbol <= s < lhs ==> derives[s] == |Layout(g, s)|
      invariant derivesRules == Layout(g, lhs)
    {
      ghost var done := derivesRules;
      derives := derives[lhs := |derivesRules|];
      var r := 0;
      while r < g.nrules
        invariant 0 <= r <= g.nrules
        invariant derivesRules == done + RulesOf(g, lhs, r)
      {
        if g.rlhs[r] == lhs {
          derivesRules := derivesRules + [r];
        }
        ListGrows(done, RulesOf(g, lhs, r), if g.rlhs[r] == lhs then [r] else []);
        r := r + 1;
      }
      derivesRules := derivesRules + [-1];
      lhs := lhs + 1;
    }
    TableFromLayout(g, derives, derivesRules);
  }

  lemma ListGrows(done: seq<int>, rules: seq<int>, next: seq<int>)
    ensures done + rules + next == done + (rules + next)
  {
  }
}
