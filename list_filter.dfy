/**
 * Filtering a list by a predicate, as the library's `filter` does it: walk
 * the list front to back and keep, in order, each element the predicate
 * accepts.  The dashboard's search is one instance of it.
 */
module ListFilter {

  /** The elements of `xs` that `keep` accepts, in their original order. */
  function Filter<T>(xs: seq<T>, keep: T -> bool): (r: seq<T>)
    ensures |r| <= |xs|
  {
    if xs == [] then []
    else (if keep(xs[0]) then [xs[0]] else []) + Filter(xs[1..], keep)
  }

  /** An element is in the result exactly when it is in the input and
      accepted. */
  lemma {:induction false} FilterMembership<T>(xs: seq<T>, keep: T -> bool)
    ensures forall x :: x in Filter(xs, keep) ==> x in xs && keep(x)
    ensures forall x :: x in xs && keep(x) ==> x in Filter(xs, keep)
    decreases |xs|
  {
    if xs != [] {
      FilterMembership(xs[1..], keep);
      assert xs == [xs[0]] + xs[1..];
    }
  }

  // ---------------------------------------------------------------------
  // Reference specification: the result picks out exactly the accepted
  // positions of the input, in increasing order.

  /** `indices` is strictly increasing and every entry is a position of a
      list of length `n`. */
  ghost predicate IncreasingPositions(indices: seq<int>, n: int)
  {
    && (forall k :: 0 <= k < |indices| ==> 0 <= indices[k] < n)
    && (forall j, k :: 0 <= j < k < |indices| ==> indices[j] < indices[k])
  }

  /** `r` is the subsequence of `xs` at positions `indices`, and those
      positions are exactly the ones whose element `keep` accepts. */
  ghost predicate Selects<T>(xs: seq<T>, keep: T -> bool, r: seq<T>, indices: seq<int>)
  {
    && IncreasingPositions(indices, |xs|)
    && |r| == |indices|
    && (forall k :: 0 <= k < |r| ==> r[k] == xs[indices[k]])
    && (forall i :: 0 <= i < |xs| ==> (keep(xs[i]) <==> i in indices))
  }

  /** The positions from `from` on whose element `keep` accepts, in order. */
  ghost function KeptPositions<T>(xs: seq<T>, keep: T -> bool, from: nat): (indices: seq<int>)
    requires from <= |xs|
    decreases |xs| - from
    ensures IncreasingPositions(indices, |xs|)
    ensures forall k :: 0 <= k < |indices| ==> from <= indices[k]
    ensures forall i :: from <= i < |xs| ==> (keep(xs[i]) <==> i in indices)
  {
    if from == |xs| then []
    else (if keep(xs[from]) then [from] else []) + KeptPositions(xs, keep, from + 1)
  }

  /** The filter's result is the selection of the accepted positions: an
      order-preserving subsequence of the input holding every accepted
      element and nothing else. */
  lemma FilterSelects<T>(xs: seq<T>, keep: T -> bool)
    ensures Selects(xs, keep, Filter(xs, keep), KeptPositions(xs, keep, 0))
  {
    FilterSelectsFrom(xs, keep, 0);
    assert xs[0..] == xs;
  }

  lemma {:induction false} FilterSelectsFrom<T>(xs: seq<T>, keep: T -> bool, from: nat)
    requires from <= |xs|
    decreases |xs| - from
    ensures var r := Filter(xs[from..], keep);
            var indices := KeptPositions(xs, keep, from);
            |r| == |indices| && forall k :: 0 <= k < |r| ==> r[k] == xs[indices[k]]
  {
    if from < |xs| {
      FilterSelectsFrom(xs, keep, from + 1);
      var tail := xs[from..];
      assert tail[0] == xs[from];
      assert tail[1..] == xs[from + 1..];
      var rest := Filter(xs[from + 1..], keep);
      var restIndices := KeptPositions(xs, keep, from + 1);
      if keep(xs[from]) {
        assert Filter(tail, keep) == [xs[from]] + rest;
        assert KeptPositions(xs, keep, from) == [from] + restIndices;
      } else {
        assert Filter(tail, keep) == rest;
        assert KeptPositions(xs, keep, from) == restIndices;
      }
    }
  }

  /** Every position moved one place towards the front. */
  function Shift(indices: seq<int>): seq<int>
  {
    seq(|indices|, k requires 0 <= k < |indices| => indices[k] - 1)
  }

  /** When the first element is accepted, every selection starts with it, and
      the rest of the selection selects from the rest of the list. */
  lemma SelectionAfterKeptHead<T>(xs: seq<T>, keep: T -> bool, r: seq<T>, indices: seq<int>)
    requires Selects(xs, keep, r, indices)
    requires xs != [] && keep(xs[0])
    ensures |r| > 0 && |indices| > 0 && r[0] == xs[0]
    ensures Selects(xs[1..], keep, r[1..], Shift(indices[1..]))
  {
    FirstSelectedIsHead(xs, keep, r, indices);
    ShiftedPositions(xs, r, indices);
    ShiftedVerdicts(xs, keep, indices);
  }

  /** An accepted first element is the first one selected. */
  lemma FirstSelectedIsHead<T>(xs: seq<T>, keep: T -> bool, r: seq<T>, indices: seq<int>)
    requires Selects(xs, keep, r, indices)
    requires xs != [] && keep(xs[0])
    ensures |r| > 0 && |indices| > 0 && indices[0] == 0 && r[0] == xs[0]
  {
    assert 0 in indices;
    var j :| 0 <= j < |indices| && indices[j] == 0;
    PositionAtLeastRank(indices, |xs|, j);
  }

  /** Dropping a leading position 0 and shifting the rest picks the rest of
      the selection out of the rest of the list. */
  lemma ShiftedPositions<T>(xs: seq<T>, r: seq<T>, indices: seq<int>)
    requires IncreasingPositions(indices, |xs|)
    requires |r| == |indices| > 0 && indices[0] == 0
    requires forall k :: 0 <= k < |r| ==> r[k] == xs[indices[k]]
    ensures IncreasingPositions(Shift(indices[1..]), |xs| - 1)
    ensures forall k :: 0 <= k < |r| - 1 ==> r[1..][k] == xs[1..][Shift(indices[1..])[k]]
  {
    var tail := xs[1..];
    var shifted := Shift(indices[1..]);
    var rest := r[1..];
    forall k | 0 <= k < |shifted|
      ensures 0 <= shifted[k] < |tail| && rest[k] == tail[shifted[k]]
    {
      assert indices[0] < indices[k + 1];
      assert rest[k] == r[k + 1];
    }
    forall j, k | 0 <= j < k < |shifted|
      ensures shifted[j] < shifted[k]
    {
      assert indices[j + 1] < indices[k + 1];
    }
  }

  /** Dropping a leading position 0 and shifting the rest gives exactly the
      accepted positions of the rest of the list. */
  lemma ShiftedVerdicts<T>(xs: seq<T>, keep: T -> bool, indices: seq<int>)
    requires |xs| > 0 && |indices| > 0 && indices[0] == 0
    requires IncreasingPositions(indices, |xs|)
    requires forall i :: 0 <= i < |xs| ==> (keep(xs[i]) <==> i in indices)
    ensures forall i :: 0 <= i < |xs| - 1 ==> (keep(xs[1..][i]) <==> i in Shift(indices[1..]))
  {
    var tail := xs[1..];
    var shifted := Shift(indices[1..]);
    forall i | 0 <= i < |tail|
      ensures keep(tail[i]) <==> i in shifted
    {
      assert tail[i] == xs[i + 1];
      if i + 1 in indices {
        var j :| 0 <= j < |indices| && indices[j] == i + 1;
        assert j > 0;
        assert shifted[j - 1] == i;
      }
      if i in shifted {
        var j :| 0 <= j < |shifted| && shifted[j] == i;
        assert indices[j + 1] == i + 1;
      }
    }
  }

  /** When the first element is rejected, every selection selects from the
      rest of the list. */
  lemma SelectionAfterDroppedHead<T>(xs: seq<T>, keep: T -> bool, r: seq<T>, indices: seq<int>)
    requires Selects(xs, keep, r, indices)
    requires xs != [] && !keep(xs[0])
    ensures Selects(xs[1..], keep, r, Shift(indices))
  {
    assert 0 !in indices;
    ShiftedAllPositions(xs, r, indices);
    ShiftedAllVerdicts(xs, keep, indices);
  }

  /** Shifting positions none of which is 0 picks the same selection out of
      the rest of the list. */
  lemma ShiftedAllPositions<T>(xs: seq<T>, r: seq<T>, indices: seq<int>)
    requires |xs| > 0 && IncreasingPositions(indices, |xs|) && 0 !in indices
    requires |r| == |indices|
    requires forall k :: 0 <= k < |r| ==> r[k] == xs[indices[k]]
    ensures IncreasingPositions(Shift(indices), |xs| - 1)
    ensures forall k :: 0 <= k < |r| ==> r[k] == xs[1..][Shift(indices)[k]]
  {
    var tail := xs[1..];
    var shifted := Shift(indices);
    forall k | 0 <= k < |shifted|
      ensures 0 <= shifted[k] < |tail| && r[k] == tail[shifted[k]]
    {
      assert indices[k] in indices;
    }
    forall j, k | 0 <= j < k < |shifted|
      ensures shifted[j] < shifted[k]
    {
      assert indices[j] < indices[k];
    }
  }

  /** Shifting positions none of which is 0 gives exactly the accepted
      positions of the rest of the list. */
  lemma ShiftedAllVerdicts<T>(xs: seq<T>, keep: T -> bool, indices: seq<int>)
    requires |xs| > 0
    requires forall i :: 0 <= i < |xs| ==> (keep(xs[i]) <==> i in indices)
    ensures forall i :: 0 <= i < |xs| - 1 ==> (keep(xs[1..][i]) <==> i in Shift(indices))
  {
    var tail := xs[1..];
    var shifted := Shift(indices);
    forall i | 0 <= i < |tail|
      ensures keep(tail[i]) <==> i in shifted
    {
      assert tail[i] == xs[i + 1];
      if i + 1 in indices {
        var j :| 0 <= j < |indices| && indices[j] == i + 1;
        assert shifted[j] == i;
      }
      if i in shifted {
        var j :| 0 <= j < |shifted| && shifted[j] == i;
        assert indices[j] == i + 1;
      }
    }
  }

  /** Only one list selects exactly the accepted positions in order, and it
      is the filter's result. */
  lemma {:induction false} SelectionIsFilter<T>(xs: seq<T>, keep: T -> bool, r: seq<T>, indices: seq<int>)
    requires Selects(xs, keep, r, indices)
    ensures r == Filter(xs, keep)
    decreases |xs|
  {
    if xs != [] {
      if keep(xs[0]) {
        var rest := r[1..];
        SelectionAfterKeptHead(xs, keep, r, indices);
        SelectionIsFilter(xs[1..], keep, rest, Shift(indices[1..]));
        assert Filter(xs, keep) == [xs[0]] + Filter(xs[1..], keep);
        assert r == [r[0]] + rest;
      } else {
        SelectionAfterDroppedHead(xs, keep, r, indices);
        SelectionIsFilter(xs[1..], keep, r, Shift(indices));
        assert Filter(xs, keep) == Filter(xs[1..], keep);
      }
    } else {
      SelectionOfEmpty(keep, r, indices);
    }
  }

  /** Nothing is selected from the empty list. */
  lemma SelectionOfEmpty<T>(keep: T -> bool, r: seq<T>, indices: seq<int>)
    requires Selects([], keep, r, indices)
    ensures r == []
  {
    PositionsFitLength(indices, 0);
  }

  /** Strictly increasing positions in a list of length `n` number at most
      `n`. */
  lemma PositionsFitLength(indices: seq<int>, n: nat)
    requires IncreasingPositions(indices, n)
    ensures |indices| <= n
  {
    if |indices| > 0 {
      PositionAtLeastRank(indices, n, |indices| - 1);
      assert indices[|indices| - 1] < n;
    }
  }

  /** The k-th of strictly increasing positions is at least k. */
  lemma {:induction false} PositionAtLeastRank(indices: seq<int>, n: int, k: int)
    requires IncreasingPositions(indices, n)
    requires 0 <= k < |indices|
    ensures indices[k] >= k
    decreases k
  {
    if k > 0 {
      PositionAtLeastRank(indices, n, k - 1);
      assert indices[k - 1] < indices[k];
    }
  }

  /** A list is the filter's result exactly when it selects the accepted
      positions of the input in an order-preserving way. */
  lemma FilterIsTheSelection<T>(xs: seq<T>, keep: T -> bool, r: seq<T>)
    ensures r == Filter(xs, keep) <==> exists indices :: Selects(xs, keep, r, indices)
  {
    if r == Filter(xs, keep) {
      FilterSelects(xs, keep);
    }
    if exists indices :: Selects(xs, keep, r, indices) {
      var indices :| Selects(xs, keep, r, indices);
      SelectionIsFilter(xs, keep, r, indices);
    }
  }

  // ---------------------------------------------------------------------
  // Algebraic properties.

  /** Filtering splits over concatenation. */
  lemma {:induction false} FilterAppend<T>(a: seq<T>, b: seq<T>, keep: T -> bool)
    ensures Filter(a + b, keep) == Filter(a, keep) + Filter(b, keep)
    decreases |a|
  {
    if a != [] {
      var head := if keep(a[0]) then [a[0]] else [];
      assert (a + b)[0] == a[0];
      assert (a + b)[1..] == a[1..] + b;
      FilterAppend(a[1..], b, keep);
      calc {
        Filter(a + b, keep);
        head + Filter(a[1..] + b, keep);
        head + (Filter(a[1..], keep) + Filter(b, keep));
        (head + Filter(a[1..], keep)) + Filter(b, keep);
        Filter(a, keep) + Filter(b, keep);
      }
    } else {
      assert a + b == b;
    }
  }

  /** A list whose every element is accepted is returned unchanged. */
  lemma {:induction false} FilterAllKept<T>(xs: seq<T>, keep: T -> bool)
    requires forall x :: x in xs ==> keep(x)
    ensures Filter(xs, keep) == xs
    decreases |xs|
  {
    if xs != [] {
      assert xs[0] in xs;
      assert forall x :: x in xs[1..] ==> x in xs;
      FilterAllKept(xs[1..], keep);
      assert xs == [xs[0]] + xs[1..];
    }
  }

  /** Filtering twice with the same predicate is filtering once. */
  lemma FilterIdempotent<T>(xs: seq<T>, keep: T -> bool)
    ensures Filter(Filter(xs, keep), keep) == Filter(xs, keep)
  {
    FilterMembership(xs, keep);
    FilterAllKept(Filter(xs, keep), keep);
  }

  /** The result is empty exactly when no element is accepted. */
  lemma EmptyIffNoneKept<T>(xs: seq<T>, keep: T -> bool)
    ensures Filter(xs, keep) == [] <==> forall x :: x in xs ==> !keep(x)
  {
    var r := Filter(xs, keep);
    FilterMembership(xs, keep);
    if r != [] {
      assert r[0] in r;
    }
  }

  /** Two predicates that agree on every element of the list filter it to
      the same result. */
  lemma {:induction false} FilterAgreeing<T>(xs: seq<T>, keep1: T -> bool, keep2: T -> bool)
    requires forall x :: x in xs ==> (keep1(x) <==> keep2(x))
    ensures Filter(xs, keep1) == Filter(xs, keep2)
    decreases |xs|
  {
    if xs != [] {
      assert xs[0] in xs;
      assert forall x :: x in xs[1..] ==> x in xs;
      FilterAgreeing(xs[1..], keep1, keep2);
    }
  }

  /** Two lists of the same length on which the predicate gives the same
      verdict position by position keep the same positions. */
  lemma {:induction false} SameVerdictsSamePositions<T>(xs: seq<T>, ys: seq<T>, keep: T -> bool, from: nat)
    requires |xs| == |ys| && from <= |xs|
    requires forall i :: 0 <= i < |xs| ==> (keep(xs[i]) <==> keep(ys[i]))
    ensures KeptPositions(xs, keep, from) == KeptPositions(ys, keep, from)
    decreases |xs| - from
  {
    if from < |xs| {
      SameVerdictsSamePositions(xs, ys, keep, from + 1);
    }
  }
}
