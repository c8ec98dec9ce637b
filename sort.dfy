/** Ordering the shift symbols of a state before their successor states are
    resolved, so that transitions are listed by ascending symbol. */
module ShiftSort {

  predicate Sorted(s: seq<int>)
  {
    forall i, j :: 0 <= i < j < |s| ==> s[i] <= s[j]
  }

  /** Every element of `s` is at least `b`. */
  predicate AtLeast(b: int, s: seq<int>)
  {
    forall k :: 0 <= k < |s| ==> b <= s[k]
  }

  /** A lower bound carries over to a sequence holding the same elements
      and one more that also respects it. */
  lemma AtLeastAdd(b: int, x: int, t: seq<int>, r: seq<int>)
    requires b <= x && AtLeast(b, t) && multiset(r) == multiset(t) + multiset{x}
    ensures AtLeast(b, r)
  {
    forall k | 0 <= k < |r| ensures b <= r[k] {
      assert r[k] in multiset(r);
      if r[k] != x {
        assert r[k] in multiset(t);
        var i :| 0 <= i < |t| && t[i] == r[k];
      }
    }
  }

  /** Insert `x` into a sorted sequence before the first larger element. */
  function Insert(x: int, s: seq<int>): (r: seq<int>)
    requires Sorted(s)
    ensures Sorted(r)
    ensures multiset(r) == multiset(s) + multiset{x}
  {
    if s == [] || x <= s[0] then [x] + s
    else
      var rest := Insert(x, s[1..]);
      InsertHead(x, s, rest);
      [s[0]] + rest
  }

  lemma InsertHead(x: int, s: seq<int>, rest: seq<int>)
    requires s != [] && s[0] < x && Sorted(s)
    requires Sorted(rest) && multiset(rest) == multiset(s[1..]) + multiset{x}
    ensures Sorted([s[0]] + rest)
    ensures multiset([s[0]] + rest) == multiset(s) + multiset{x}
  {
    assert s == [s[0]] + s[1..];
    assert AtLeast(s[0], s[1..]);
    AtLeastAdd(s[0], x, s[1..], rest);
  }

  /** The reference ordering: the functional insertion sort. */
  function InsertionSort(s: seq<int>): (r: seq<int>)
    ensures Sorted(r)
    ensures multiset(r) == multiset(s)
  {
    if s == [] then []
    else
      assert s == s[..|s| - 1] + [s[|s| - 1]];
      Insert(s[|s| - 1], InsertionSort(s[..|s| - 1]))
  }

  /** The first element of a sorted sequence is its least. */
  lemma HeadLeast(a: seq<int>, x: int)
    requires Sorted(a) && x in multiset(a)
    ensures a != [] && a[0] <= x
  {
    var i :| 0 <= i < |a| && a[i] == x;
  }

  /** Dropping the first element of a sorted sequence. */
  lemma Tail(a: seq<int>)
    requires Sorted(a) && a != []
    ensures Sorted(a[1..]) && multiset(a[1..]) == multiset(a) - multiset{a[0]}
  {
    assert a == [a[0]] + a[1..];
  }

  /** A sorted permutation is unique: two sorted sequences with the same
      elements are equal. */
  lemma {:induction false} SortedUnique(a: seq<int>, b: seq<int>)
    requires Sorted(a) && Sorted(b) && multiset(a) == multiset(b)
    ensures a == b
    decreases |a|
  {
    if a == [] {
      assert |multiset(b)| == 0;
    } else {
      HeadsAgree(a, b);
      Tail(a);
      Tail(b);
      SortedUnique(a[1..], b[1..]);
      Cons(a, b);
    }
  }

  lemma HeadsAgree(a: seq<int>, b: seq<int>)
    requires Sorted(a) && Sorted(b) && multiset(a) == multiset(b) && a != []
    ensures b != [] && a[0] == b[0]
  {
    assert a[0] in multiset(a);
    HeadLeast(b, a[0]);
    assert b[0] in multiset(b);
    HeadLeast(a, b[0]);
  }

  lemma Cons(a: seq<int>, b: seq<int>)
    requires a != [] && b != [] && a[0] == b[0] && a[1..] == b[1..]
    ensures a == b
  {
    assert a == [a[0]] + a[1..] && b == [b[0]] + b[1..];
  }

  /** During one insertion step the prefix `s[..i+1]` is sorted except for
      the hole at `j`, and every element right of the hole exceeds `x`. */
  predicate HoleSorted(s: seq<int>, i: int, j: int)
    requires i < |s|
  {
    forall k, l :: 0 <= k < l <= i && k != j && l != j ==> s[k] <= s[l]
  }

  predicate AboveHole(s: seq<int>, i: int, j: int, x: int)
    requires i < |s|
  {
    forall l :: j < l <= i && 0 <= l ==> x < s[l]
  }

  lemma OpenHole(s: seq<int>, i: int)
    requires 0 <= i < |s| && Sorted(s[..i])
    ensures HoleSorted(s, i, i) && AboveHole(s, i, i, s[i])
  {
    forall k, l | 0 <= k < l <= i && k != i && l != i ensures s[k] <= s[l] {
      assert s[k] == s[..i][k] && s[l] == s[..i][l];
    }
  }

  /** Moving the element left of the hole into it moves the hole one place
      left and keeps the multiset of the prefix with `x` in the hole. */
  lemma {:induction false} ShiftIntoHole(s: seq<int>, i: int, j: int, x: int)
    requires 0 < j <= i < |s|
    requires HoleSorted(s, i, j) && AboveHole(s, i, j, x) && s[j - 1] > x
    ensures HoleSorted(s[j := s[j - 1]], i, j - 1)
    ensures AboveHole(s[j := s[j - 1]], i, j - 1, x)
    ensures multiset(s[j := s[j - 1]][j - 1 := x]) == multiset(s[j := x])
  {
    var t := s[j := s[j - 1]];
    forall k, l | 0 <= k < l <= i && k != j - 1 && l != j - 1 ensures t[k] <= t[l] {
      if k == j {
        assert s[j - 1] <= s[l];
      } else if l == j {
        assert s[k] <= s[j - 1];
      }
    }
    assert t[j - 1 := x] == s[j := x][j - 1 := s[j - 1]][j := s[j - 1]][j - 1 := x];
  }

  /** Dropping `x` into the hole once the element left of it is not larger
      leaves the prefix sorted. */
  lemma {:induction false} CloseHole(s: seq<int>, i: int, j: int, x: int)
    requires 0 <= j <= i < |s|
    requires HoleSorted(s, i, j) && AboveHole(s, i, j, x)
    requires j == 0 || s[j - 1] <= x
    ensures Sorted(s[j := x][..i + 1])
  {
    var t := s[j := x];
    forall k, l | 0 <= k < l <= i ensures t[k] <= t[l] {
      if k == j {
      } else if l == j {
        assert s[k] <= s[j - 1];
      }
    }
  }

  /** `sort_shift_symbols`: insertion sort in place; each symbol is moved
      left past the larger ones before it. */
  method SortShiftSymbols(a: array<int>)
    modifies a
    ensures Sorted(a[..])
    ensures multiset(a[..]) == multiset(old(a[..]))
    ensures a[..] == InsertionSort(old(a[..]))
  {
    ghost var orig := a[..];
    var i := 1;
    while i < a.Length
      invariant 1 <= i
      invariant 0 < a.Length ==> i <= a.Length && Sorted(a[..i])
      invariant multiset(a[..]) == multiset(orig)
    {
      InsertSymbol(a, i);
      i := i + 1;
    }
    if a.Length == 0 {
      assert a[..] == [];
    } else {
      assert a[..] == a[..i];
    }
    SortedUnique(a[..], InsertionSort(orig));
  }

  /** The state of one insertion pass over the first `i + 1` elements of
      `orig`: `x` has been lifted out, leaving a hole at `j`. */
  predicate Lifted(s: seq<int>, orig: seq<int>, i: int, j: int, x: int)
  {
    && 0 <= j <= i < |s|
    && HoleSorted(s, i, j) && AboveHole(s, i, j, x)
    && multiset(s[j := x]) == multiset(orig)
    && |orig| == |s| && forall k :: i < k < |s| ==> s[k] == orig[k]
  }

  lemma LiftFirst(s: seq<int>, i: int)
    requires 0 <= i < |s| && Sorted(s[..i])
    ensures Lifted(s, s, i, i, s[i])
  {
    OpenHole(s, i);
    assert s[i := s[i]] == s;
  }

  lemma LiftStep(s: seq<int>, t: seq<int>, orig: seq<int>, i: int, j: int, x: int)
    requires Lifted(s, orig, i, j, x) && 0 < j && s[j - 1] > x && t == s[j := s[j - 1]]
    ensures Lifted(t, orig, i, j - 1, x)
  {
    ShiftIntoHole(s, i, j, x);
  }

  /** One pass of the outer loop: the symbol at `i` moves left into place,
      after which the first `i + 1` symbols are sorted. */
  method InsertSymbol(a: array<int>, i: int)
    requires 0 < i < a.Length && Sorted(a[..i])
    modifies a
    ensures Sorted(a[..i + 1])
    ensures multiset(a[..i + 1]) == multiset(old(a[..i + 1]))
    ensures a[i + 1..] == old(a[i + 1..])
    ensures multiset(a[..]) == multiset(old(a[..]))
  {
    ghost var orig := a[..];
    var symbol := a[i];
    LiftFirst(orig, i);
    var j := ShiftLarger(a, orig, i, symbol);
    ghost var cur := a[..];
    CloseHole(cur, i, j, symbol);
    Write(a, j, symbol);
    SameSuffix(a[..], orig, i + 1);
  }

  /** The inner loop of one pass: entries before the hole larger than `x`
      move one place right, carrying the hole left. */
  method ShiftLarger(a: array<int>, ghost orig: seq<int>, i: int, x: int) returns (j: int)
    requires Lifted(a[..], orig, i, i, x)
    modifies a
    ensures Lifted(a[..], orig, i, j, x) && (j == 0 || a[j - 1] <= x)
  {
    j := i;
    while j > 0 && a[j - 1] > x
      invariant Lifted(a[..], orig, i, j, x)
    {
      MoveUp(a, orig, i, j, x);
      j := j - 1;
    }
  }

  /** One turn of the inner loop: the entry before the hole moves into it. */
  method MoveUp(a: array<int>, ghost orig: seq<int>, i: int, j: int, x: int)
    requires Lifted(a[..], orig, i, j, x) && 0 < j && a[j - 1] > x
    modifies a
    ensures Lifted(a[..], orig, i, j - 1, x)
  {
    ghost var next := a[..][j := a[j - 1]];
    LiftStep(a[..], next, orig, i, j, x);
    Write(a, j, a[j - 1]);
    assert a[..] == next;
  }

  /** Two arrangements of the same multiset that agree past `n` are
      arrangements of each other before `n`. */
  lemma SameSuffix(s: seq<int>, t: seq<int>, n: nat)
    requires n <= |s| == |t| && multiset(s) == multiset(t)
    requires forall k :: n <= k < |s| ==> s[k] == t[k]
    ensures s[n..] == t[n..]
    ensures multiset(s[..n]) == multiset(t[..n])
  {
    assert s[n..] == t[n..];
    assert s == s[..n] + s[n..];
    assert t == t[..n] + t[n..];
    var rest := multiset(s[n..]);
    assert multiset(s) == multiset(s[..n]) + rest;
    assert multiset(t) == multiset(t[..n]) + rest;
    forall x ensures multiset(s[..n])[x] == multiset(t[..n])[x] {
      assert multiset(s)[x] == multiset(s[..n])[x] + rest[x];
      assert multiset(t)[x] == multiset(t[..n])[x] + rest[x];
    }
  }

  /** A single array write, seen as a sequence update. */
  method Write(a: array<int>, j: int, x: int)
    requires 0 <= j < a.Length
    modifies a
    ensures a[..] == old(a[..])[j := x]
  {
    a[j] := x;
  }
}
