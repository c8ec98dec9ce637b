/** Which symbols can derive the empty string: a fixed point over a bit set,
    computed by repeated passes over the rule items until a pass changes
    nothing. */
module Nullable {
  import opened Grammars

  /** A pass begins scanning at item 1 and starts the next right-hand side
      just after each end-of-rule entry. */
  predicate ScanStart(g: Grammar, i: int)
    requires |g.ritem| == g.nitems
  {
    1 <= i < g.nitems && (i == 1 || g.ritem[i - 1] < 0)
  }

  /** The end-of-rule entry that closes the right-hand side scanned from `i`. */
  function RuleEnd(g: Grammar, i: nat): (e: nat)
    requires WellFormed(g) && i < g.nitems
    ensures i <= e < g.nitems && g.ritem[e] < 0
    ensures forall k :: i <= k < e ==> g.ritem[k] >= 0
    decreases g.nitems - i
  {
    if g.ritem[i] < 0 then i else RuleEnd(g, i + 1)
  }

  /** The left-hand side of the rule whose right-hand side is scanned from `i`. */
  function ScanLhs(g: Grammar, i: nat): (s: int)
    requires WellFormed(g) && i < g.nitems
    ensures 0 <= s < g.nsyms
  {
    g.rlhs[-g.ritem[RuleEnd(g, i)]]
  }

  /** Every symbol of the right-hand side scanned from `i` is marked in `bits`. */
  ghost predicate BodyMarked(g: Grammar, i: nat, bits: seq<bool>)
    requires WellFormed(g) && i < g.nitems && |bits| == g.nsyms
  {
    forall k :: i <= k < RuleEnd(g, i) ==> bits[g.ritem[k]]
  }

  /** No scanned rule has a marked right-hand side and an unmarked left side. */
  ghost predicate Closed(g: Grammar, bits: seq<bool>)
    requires WellFormed(g) && |bits| == g.nsyms
  {
    forall i :: ScanStart(g, i) && BodyMarked(g, i, bits) ==> bits[ScanLhs(g, i)]
  }

  /** Symbol `s` is the left side of the rule scanned from `i`, and every
      symbol of that right-hand side is in `prior`. */
  ghost predicate JustifiedBy(g: Grammar, i: int, s: int, prior: seq<int>)
    requires WellFormed(g)
  {
    ScanStart(g, i) && ScanLhs(g, i) == s &&
    forall k :: i <= k < RuleEnd(g, i) ==> g.ritem[k] in prior
  }

  /** `order` lists the marked symbols in the order they were marked, and
      each `order[p]` was marked through the rule scanned from `via[p]`,
      whose right-hand side was marked before it. */
  ghost predicate Justified(g: Grammar, bits: seq<bool>, order: seq<int>, via: seq<int>)
    requires WellFormed(g) && |bits| == g.nsyms
  {
    && |via| == |order|
    && (forall s :: 0 <= s < g.nsyms ==> (bits[s] <==> s in order))
    && (forall x :: x in order ==> 0 <= x < g.nsyms)
    && (forall p :: 0 <= p < |order| ==> JustifiedBy(g, via[p], order[p], order[..p]))
  }

  function CountFalse(bits: seq<bool>): nat
  {
    if bits == [] then 0 else CountFalse(bits[1..]) + if bits[0] then 0 else 1
  }

  /** Setting a clear bit lowers the number of clear bits by one. */
  lemma {:induction false} CountFalseSet(bits: seq<bool>, j: nat)
    requires j < |bits| && !bits[j]
    ensures CountFalse(bits[j := true]) == CountFalse(bits) - 1
  {
    if j > 0 {
      CountFalseSet(bits[1..], j - 1);
      assert bits[j := true][1..] == bits[1..][j - 1 := true];
    }
  }

  /** `set_nullable`: repeat passes over the items from item 1 on; a rule
      whose scanned right-hand side is all nullable makes its left side
      nullable.  Stop after a pass that sets no new bit.  Bits are only ever
      set, which bounds the number of passes. */
  method SetNullable(g: Grammar) returns (nullable: seq<bool>, ghost order: seq<int>, ghost via: seq<int>)
    requires WellFormed(g)
    ensures |nullable| == g.nsyms
    ensures Closed(g, nullable)
    ensures Justified(g, nullable, order, via)
  {
    nullable := seq(g.nsyms, _ => false);
    order, via := [], [];
    var done := false;
    while !done
      invariant |nullable| == g.nsyms
      invariant Justified(g, nullable, order, via)
      invariant done ==> Closed(g, nullable)
      decreases (if done then 0 else 1) + CountFalse(nullable)
    {
      nullable, order, via, done := NullablePass(g, nullable, order, via);
    }
  }

  /** What holds part-way through a pass that started from `bits`, with
      the scan at item `i`: bits were only set, each with its justification;
      `done` means none was set, and then every rule scanned so far is
      satisfied. */
  ghost predicate PassSoFar(g: Grammar, bits: seq<bool>, nullable: seq<bool>, order: seq<int>, via: seq<int>,
                            done: bool, i: int)
    requires WellFormed(g) && |bits| == g.nsyms
  {
    && 1 <= i <= g.nitems
    && (i < g.nitems ==> ScanStart(g, i))
    && |nullable| == g.nsyms
    && Justified(g, nullable, order, via)
    && (forall s :: 0 <= s < g.nsyms && bits[s] ==> nullable[s])
    && (done ==> nullable == bits)
    && (!done ==> CountFalse(nullable) < CountFalse(bits))
    && (done ==> ClosedBelow(g, nullable, i))
  }

  /** Every rule whose scan starts before item `i` is satisfied by `bits`. */
  ghost predicate ClosedBelow(g: Grammar, bits: seq<bool>, i: int)
    requires WellFormed(g) && |bits| == g.nsyms
  {
    forall s :: ScanStart(g, s) && s < i && BodyMarked(g, s, bits) ==> bits[ScanLhs(g, s)]
  }

  /** One pass of the `done_flag` loop: `done` stays true exactly when no
      bit was set, and then the bits are closed under every scanned rule. */
  method NullablePass(g: Grammar, bits: seq<bool>, ghost order: seq<int>, ghost via: seq<int>)
    returns (nullable: seq<bool>, ghost order': seq<int>, ghost via': seq<int>, done: bool)
    requires WellFormed(g) && |bits| == g.nsyms
    requires Justified(g, bits, order, via)
    ensures |nullable| == g.nsyms
    ensures Justified(g, nullable, order', via')
    ensures forall s :: 0 <= s < g.nsyms && bits[s] ==> nullable[s]
    ensures done ==> nullable == bits && Closed(g, nullable)
    ensures !done ==> CountFalse(nullable) < CountFalse(bits)
  {
    nullable, order', via' := bits, order, via;
    done := true;
    var i := 1;
    while i < g.nitems
      invariant PassSoFar(g, bits, nullable, order', via', done, i)
      decreases g.nitems - i
    {
      i, nullable, order', via', done := VisitRule(g, bits, nullable, order', via', done, i);
    }
  }

  /** One rule of a pass: scan the right-hand side starting at `start` and,
      when every symbol on it is nullable, mark its left side.  Returns the
      item after the rule's end-of-rule entry. */
  method VisitRule(g: Grammar, bits: seq<bool>, nullable: seq<bool>, ghost order: seq<int>, ghost via: seq<int>,
                   done: bool, start: nat)
    returns (next: nat, nullable': seq<bool>, ghost order': seq<int>, ghost via': seq<int>, done': bool)
    requires WellFormed(g) && |bits| == g.nsyms && start < g.nitems
    requires PassSoFar(g, bits, nullable, order, via, done, start)
    ensures next == RuleEnd(g, start) + 1
    ensures PassSoFar(g, bits, nullable', order', via', done', next)
  {
    nullable', order', via', done' := nullable, order, via, done;
    var i, empty := ScanRule(g, nullable, start);
    var j := g.ritem[i];
    if empty {
      j := g.rlhs[-j];
      assert j == ScanLhs(g, start);
      if !nullable[j] {
        MarkStep(g, bits, nullable, order, via, done, start);
        nullable' := nullable[j := true];
        order', via' := order + [j], via + [start];
        done' := false;
      } else {
        KeepStep(g, bits, nullable, order, via, done, start);
      }
    } else {
      KeepStep(g, bits, nullable, order, via, done, start);
    }
    next := i + 1;
  }

  /** Marking the left side of a rule whose right-hand side is all marked
      keeps a pass's invariant, now with a bit set. */
  lemma MarkStep(g: Grammar, bits: seq<bool>, nullable: seq<bool>, order: seq<int>, via: seq<int>,
                 done: bool, start: nat)
    requires WellFormed(g) && |bits| == g.nsyms && start < g.nitems
    requires PassSoFar(g, bits, nullable, order, via, done, start)
    requires BodyMarked(g, start, nullable) && !nullable[ScanLhs(g, start)]
    ensures PassSoFar(g, bits, nullable[ScanLhs(g, start) := true], order + [ScanLhs(g, start)],
                      via + [start], false, RuleEnd(g, start) + 1)
  {
    var j := ScanLhs(g, start);
    CountFalseSet(nullable, j);
    JustifyNew(g, nullable, order, via, start);
  }

  /** A rule that marks nothing new keeps a pass's invariant; when no bit
      has been set the rule is satisfied, so the scanned prefix stays closed. */
  lemma KeepStep(g: Grammar, bits: seq<bool>, nullable: seq<bool>, order: seq<int>, via: seq<int>,
                 done: bool, start: nat)
    requires WellFormed(g) && |bits| == g.nsyms && start < g.nitems
    requires PassSoFar(g, bits, nullable, order, via, done, start)
    requires BodyMarked(g, start, nullable) ==> nullable[ScanLhs(g, start)]
    ensures PassSoFar(g, bits, nullable, order, via, done, RuleEnd(g, start) + 1)
  {
    if done {
      ClosedPastRule(g, nullable, start);
    }
  }

  /** A satisfied rule extends the closed prefix past its end-of-rule entry:
      no scan starts inside its right-hand side. */
  lemma ClosedPastRule(g: Grammar, bits: seq<bool>, start: nat)
    requires WellFormed(g) && |bits| == g.nsyms && start < g.nitems
    requires ClosedBelow(g, bits, start)
    requires ScanStart(g, start)
    requires BodyMarked(g, start, bits) ==> bits[ScanLhs(g, start)]
    ensures ClosedBelow(g, bits, RuleEnd(g, start) + 1)
  {
    forall s | ScanStart(g, s) && s < RuleEnd(g, start) + 1 && BodyMarked(g, s, bits)
      ensures bits[ScanLhs(g, s)]
    {
      // a scan start after `start` would follow an end of rule inside its right-hand side
      assert s <= start;
    }
  }

  /** The inner `loop` of a pass: walk the right-hand side scanned from
      `start` to its end-of-rule entry, noting whether every symbol met is
      already nullable. */
  method ScanRule(g: Grammar, nullable: seq<bool>, start: nat) returns (i: nat, empty: bool)
    requires WellFormed(g) && |nullable| == g.nsyms && start < g.nitems
    ensures i == RuleEnd(g, start)
    ensures empty <==> BodyMarked(g, start, nullable)
  {
    i := start;
    empty := true;
    while true
      invariant start <= i <= RuleEnd(g, start)
      invariant empty <==> forall k :: start <= k < i ==> nullable[g.ritem[k]]
      decreases RuleEnd(g, start) - i
    {
      var j := g.ritem[i];
      if j < 0 {
        break;
      }
      if !nullable[j] {
        empty := false;
      }
      i := i + 1;
    }
  }

  /** Marking the left side of a rule whose right-hand side is all marked
      keeps every mark justified. */
  lemma {:induction false} JustifyNew(g: Grammar, bits: seq<bool>, order: seq<int>, via: seq<int>, i: nat)
    requires WellFormed(g) && |bits| == g.nsyms
    requires Justified(g, bits, order, via)
    requires ScanStart(g, i) && BodyMarked(g, i, bits) && !bits[ScanLhs(g, i)]
    ensures Justified(g, bits[ScanLhs(g, i) := true], order + [ScanLhs(g, i)], via + [i])
  {
    var s := ScanLhs(g, i);
    var order', via', bits' := order + [s], via + [i], bits[s := true];
    forall t | 0 <= t < g.nsyms ensures bits'[t] <==> t in order' {
      assert t in order' <==> t in order || t == s;
    }
    forall p | 0 <= p < |order'|
      ensures JustifiedBy(g, via'[p], order'[p], order'[..p])
    {
      if p < |order| {
        assert order'[..p] == order[..p];
      } else {
        assert order'[..p] == order;
        forall k | i <= k < RuleEnd(g, i) ensures g.ritem[k] in order {
          assert bits[g.ritem[k]];
        }
      }
    }
  }

  /** The computed set is the least closed one: any set of symbols closed
      under the scanned rules contains every symbol marked nullable. */
  lemma NullableIsLeast(g: Grammar, bits: seq<bool>, order: seq<int>, via: seq<int>, other: seq<bool>)
    requires WellFormed(g) && |bits| == g.nsyms && |other| == g.nsyms
    requires Justified(g, bits, order, via)
    requires Closed(g, other)
    ensures forall s :: 0 <= s < g.nsyms && bits[s] ==> other[s]
  {
    PrefixInClosed(g, bits, order, via, other, |order|);
  }

  lemma {:induction false} PrefixInClosed(g: Grammar, bits: seq<bool>, order: seq<int>, via: seq<int>,
                                          other: seq<bool>, n: nat)
    requires WellFormed(g) && |bits| == g.nsyms && |other| == g.nsyms
    requires Justified(g, bits, order, via)
    requires Closed(g, other)
    requires n <= |order|
    ensures forall q :: 0 <= q < n ==> other[order[q]]
  {
    if n > 0 {
      PrefixInClosed(g, bits, order, via, other, n - 1);
      var p := n - 1;
      assert JustifiedBy(g, via[p], order[p], order[..p]);
      forall k | via[p] <= k < RuleEnd(g, via[p]) ensures other[g.ritem[k]] {
        var q :| 0 <= q < p && order[..p][q] == g.ritem[k];
      }
      assert BodyMarked(g, via[p], other);
    }
  }

  /** A symbol is nullable exactly when some scanned rule with that left
      side has an all-nullable right-hand side (including an empty one). */
  lemma NullableIff(g: Grammar, bits: seq<bool>, order: seq<int>, via: seq<int>, s: int)
    requires WellFormed(g) && |bits| == g.nsyms && 0 <= s < g.nsyms
    requires Justified(g, bits, order, via) && Closed(g, bits)
    ensures bits[s] <==> exists i :: ScanStart(g, i) && ScanLhs(g, i) == s && BodyMarked(g, i, bits)
  {
    if bits[s] {
      var p :| 0 <= p < |order| && order[p] == s;
      MarkedThrough(g, bits, order, via, p);
      assert ScanStart(g, via[p]) && ScanLhs(g, via[p]) == s && BodyMarked(g, via[p], bits);
    }
  }

  /** The rule a symbol was marked through has an all-marked right-hand side. */
  lemma MarkedThrough(g: Grammar, bits: seq<bool>, order: seq<int>, via: seq<int>, p: int)
    requires WellFormed(g) && |bits| == g.nsyms
    requires Justified(g, bits, order, via) && 0 <= p < |order|
    ensures ScanStart(g, via[p]) && ScanLhs(g, via[p]) == order[p] && BodyMarked(g, via[p], bits)
  {
    var i := via[p];
    assert JustifiedBy(g, i, order[p], order[..p]);
    forall k | i <= k < RuleEnd(g, i) ensures bits[g.ritem[k]] {
      assert g.ritem[k] in order[..p];
    }
  }
}
