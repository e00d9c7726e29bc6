/** Sequence operations the application leans on: `Array.prototype.filter`,
    order-preserving subsequences, and the insertion order of a JavaScript `Set`. */
module Sequences {

  /** `xs.filter(keep)`: the elements of `xs` that satisfy `keep`, in their original order. */
  function Filter<T(==,!new)>(xs: seq<T>, keep: T -> bool): (r: seq<T>)
    ensures |r| <= |xs|
    decreases |xs|
  {
    if xs == [] then []
    else (if keep(xs[0]) then [xs[0]] else []) + Filter(xs[1..], keep)
  }

  /** The result holds exactly the elements of the input that pass. */
  lemma {:induction false} FilterMembers<T(!new)>(xs: seq<T>, keep: T -> bool)
    ensures forall x :: x in Filter(xs, keep) <==> x in xs && keep(x)
    decreases |xs|
  {
    if xs != [] {
      FilterMembers(xs[1..], keep);
      assert xs == [xs[0]] + xs[1..];
    }
  }

  /** `xs` can be obtained from `ys` by deleting elements, without reordering the rest. */
  predicate IsSubsequence<T(==,!new)>(xs: seq<T>, ys: seq<T>)
    decreases |ys|
  {
    if xs == [] then true
    else if ys == [] then false
    else if xs[0] == ys[0] then IsSubsequence(xs[1..], ys[1..])
    else IsSubsequence(xs, ys[1..])
  }

  /** Every sequence is a subsequence of itself. */
  lemma {:induction false} SubsequenceReflexive<T(!new)>(xs: seq<T>)
    ensures IsSubsequence(xs, xs)
    decreases |xs|
  {
    if xs != [] {
      SubsequenceReflexive(xs[1..]);
    }
  }

  /** No element occurs twice. */
  predicate NoDuplicates<T(==,!new)>(xs: seq<T>) {
    forall i, j :: 0 <= i < j < |xs| ==> xs[i] != xs[j]
  }

  /** Position of the first occurrence of `x` in `xs`. */
  function FirstIndex<T(==,!new)>(xs: seq<T>, x: T): (k: nat)
    requires x in xs
    ensures k < |xs| && xs[k] == x && x !in xs[..k]
  {
    if xs[0] == x then 0 else 1 + FirstIndex(xs[1..], x)
  }

  /** `[...new Set(xs)]`: each value of `xs` once, in the order a `Set` built by
      inserting the elements of `xs` one after the other enumerates them. */
  function InsertionOrder<T(==,!new)>(xs: seq<T>): (r: seq<T>)
    ensures forall x :: x in r <==> x in xs
    ensures NoDuplicates(r)
    decreases |xs|
  {
    if xs == [] then []
    else
      var seen := InsertionOrder(xs[..|xs| - 1]);
      var x := xs[|xs| - 1];
      assert forall y :: y in xs <==> y in xs[..|xs| - 1] || y == x by {
        assert xs == xs[..|xs| - 1] + [x];
      }
      if x in seen then seen else seen + [x]
  }

  /** A run of one value not seen before, appended to `xs`, adds that value once, at the end. */
  lemma InsertionOrderNewRun<T(!new)>(xs: seq<T>, seen: seq<T>, run: seq<T>)
    requires InsertionOrder(xs) == seen && run != [] && run[0] !in seen
    requires forall i :: 0 <= i < |run| ==> run[i] == run[0]
    ensures InsertionOrder(xs + run) == seen + [run[0]]
  {
    var x, rest := run[0], run[1..];
    InsertionOrderSnoc(xs, x);
    forall y | y in rest ensures y in xs + [x] {
      var i :| 0 <= i < |rest| && rest[i] == y;
      assert run[i + 1] == y;
    }
    InsertionOrderAppendSeen(xs + [x], rest);
    assert xs + run == (xs + [x]) + rest;
  }

  /** Appending one element: the `Set` either has it already or enumerates it last. */
  lemma InsertionOrderSnoc<T(!new)>(xs: seq<T>, x: T)
    ensures InsertionOrder(xs + [x]) == if x in InsertionOrder(xs) then InsertionOrder(xs) else InsertionOrder(xs) + [x]
  {
    assert (xs + [x])[..|xs|] == xs;
  }

  /** Appending values the `Set` already holds changes neither its contents nor its order. */
  lemma {:induction false} InsertionOrderAppendSeen<T(!new)>(xs: seq<T>, ys: seq<T>)
    requires forall y :: y in ys ==> y in xs
    ensures InsertionOrder(xs + ys) == InsertionOrder(xs)
    decreases |ys|
  {
    if ys == [] {
      assert xs + ys == xs;
    } else {
      var init := ys[..|ys| - 1];
      var y := ys[|ys| - 1];
      assert ys == init + [y];
      assert y in ys;
      assert forall z :: z in init ==> z in ys;
      InsertionOrderAppendSeen(xs, init);
      assert xs + ys == (xs + init) + [y];
      InsertionOrderSnoc(xs + init, y);
    }
  }

  /** Filtering keeps every element that passes and drops the others, so the
      result is an order-preserving subsequence of the input. */
  lemma {:induction false} FilterIsSubsequence<T(!new)>(xs: seq<T>, keep: T -> bool)
    ensures IsSubsequence(Filter(xs, keep), xs)
    decreases |xs|
  {
    if xs != [] {
      FilterIsSubsequence(xs[1..], keep);
      FilterMembers(xs[1..], keep);
      var rest := Filter(xs[1..], keep);
      if keep(xs[0]) {
        assert Filter(xs, keep) == [xs[0]] + rest;
        assert ([xs[0]] + rest)[1..] == rest;
      } else {
        assert Filter(xs, keep) == rest;
        if rest != [] {
          assert rest[0] in rest;
          assert rest[0] != xs[0];
        }
      }
    }
  }

  /** When every element passes, `filter` returns its input unchanged. */
  lemma {:induction false} FilterKeepsAll<T(!new)>(xs: seq<T>, keep: T -> bool)
    requires forall x :: x in xs ==> keep(x)
    ensures Filter(xs, keep) == xs
    decreases |xs|
  {
    if xs != [] {
      assert xs[0] in xs;
      assert forall x :: x in xs[1..] ==> x in xs;
      FilterKeepsAll(xs[1..], keep);
      assert xs == [xs[0]] + xs[1..];
    }
  }

  /** When no element passes, `filter` returns the empty sequence. */
  lemma {:induction false} FilterKeepsNone<T(!new)>(xs: seq<T>, keep: T -> bool)
    requires forall x :: x in xs ==> !keep(x)
    ensures Filter(xs, keep) == []
    decreases |xs|
  {
    if xs != [] {
      assert xs[0] in xs;
      assert forall x :: x in xs[1..] ==> x in xs;
      FilterKeepsNone(xs[1..], keep);
    }
  }

  /** `filter` distributes over concatenation. */
  lemma {:induction false} FilterConcat<T(!new)>(xs: seq<T>, ys: seq<T>, keep: T -> bool)
    ensures Filter(xs + ys, keep) == Filter(xs, keep) + Filter(ys, keep)
    decreases |xs|
  {
    if xs == [] {
      assert xs + ys == ys;
    } else {
      var head := if keep(xs[0]) then [xs[0]] else [];
      assert (xs + ys)[0] == xs[0];
      assert (xs + ys)[1..] == xs[1..] + ys;
      FilterConcat(xs[1..], ys, keep);
      assert Filter(xs + ys, keep) == head + (Filter(xs[1..], keep) + Filter(ys, keep));
      assert Filter(xs, keep) == head + Filter(xs[1..], keep);
    }
  }

  /** Removing an element the filter drops anyway does not change what it keeps. */
  lemma FilterWithoutDropped<T(!new)>(xs: seq<T>, k: nat, keep: T -> bool)
    requires k < |xs| && !keep(xs[k])
    ensures Filter(xs[..k] + xs[k + 1..], keep) == Filter(xs, keep)
  {
    var before, after := xs[..k], xs[k + 1..];
    var rest := [xs[k]] + after;
    assert xs == before + rest;
    FilterConcat(before, rest, keep);
    FilterConcat(before, after, keep);
    FilterConsDropped(xs[k], after, keep);
  }

  lemma FilterConsDropped<T(!new)>(x: T, ys: seq<T>, keep: T -> bool)
    requires !keep(x)
    ensures Filter([x] + ys, keep) == Filter(ys, keep)
  {
    assert ([x] + ys)[0] == x;
    assert ([x] + ys)[1..] == ys;
  }

  /** Appending an element the filter drops does not change what it keeps. */
  lemma FilterAppendDropped<T(!new)>(xs: seq<T>, x: T, keep: T -> bool)
    requires !keep(x)
    ensures Filter(xs + [x], keep) == Filter(xs, keep)
  {
    FilterConcat(xs, [x], keep);
    assert [x][1..] == [];
  }

  /** Two filters in a row keep exactly what one filter by both conditions keeps. */
  lemma {:induction false} FilterFilter<T(!new)>(xs: seq<T>, p: T -> bool, q: T -> bool, pq: T -> bool)
    requires forall x :: pq(x) == (p(x) && q(x))
    ensures Filter(Filter(xs, p), q) == Filter(xs, pq)
    decreases |xs|
  {
    if xs != [] {
      FilterFilter(xs[1..], p, q, pq);
      var rest := Filter(xs[1..], p);
      assert Filter(xs, pq) == (if pq(xs[0]) then [xs[0]] else []) + Filter(xs[1..], pq);
      if p(xs[0]) {
        assert Filter(xs, p) == [xs[0]] + rest;
        FilterConcat([xs[0]], rest, q);
        assert Filter([xs[0]], q) == (if q(xs[0]) then [xs[0]] else []) by {
          assert [xs[0]][1..] == [];
        }
      } else {
        assert Filter(xs, p) == rest;
      }
    }
  }

  /** The first occurrence of a value in a prefix is its first occurrence in any extension. */
  lemma {:induction false} FirstIndexOfPrefix<T(!new)>(xs: seq<T>, ys: seq<T>, x: T)
    requires x in xs
    ensures FirstIndex(xs + ys, x) == FirstIndex(xs, x)
    decreases |xs|
  {
    assert (xs + ys)[0] == xs[0];
    if xs[0] != x {
      assert (xs + ys)[1..] == xs[1..] + ys;
      FirstIndexOfPrefix(xs[1..], ys, x);
    }
  }

  /** Every value of `r` occurs in `xs`, and `r` lists them in the order of their first occurrence there. */
  ghost predicate InFirstOccurrenceOrder<T(!new)>(r: seq<T>, xs: seq<T>) {
    && (forall x :: x in r ==> x in xs)
    && forall i, j :: 0 <= i < j < |r| ==> FirstIndex(xs, r[i]) < FirstIndex(xs, r[j])
  }

  /** The values come out ordered by where they first occur in the input. */
  lemma {:induction false} InsertionOrderIsFirstOccurrenceOrder<T(!new)>(xs: seq<T>)
    ensures InFirstOccurrenceOrder(InsertionOrder(xs), xs)
    decreases |xs|
  {
    if xs != [] {
      var n := |xs|;
      var prefix := xs[..n - 1];
      var x := xs[n - 1];
      assert xs == prefix + [x];
      InsertionOrderIsFirstOccurrenceOrder(prefix);
      var seen := InsertionOrder(prefix);
      var r := InsertionOrder(xs);
      forall y | y in seen
        ensures FirstIndex(xs, y) == FirstIndex(prefix, y)
      {
        FirstIndexOfPrefix(prefix, [x], y);
      }
      if x !in seen {
        assert r == seen + [x];
        assert x !in prefix;
        assert FirstIndex(xs, x) == n - 1;
        forall i, j | 0 <= i < j < |r|
          ensures FirstIndex(xs, r[i]) < FirstIndex(xs, r[j])
        {
          assert r[i] == seen[i];
          assert r[i] in seen;
          if j < |seen| {
            assert r[j] == seen[j] && r[j] in seen;
            assert FirstIndex(prefix, seen[i]) < FirstIndex(prefix, seen[j]);
          } else {
            assert r[j] == x;
            assert FirstIndex(prefix, r[i]) < |prefix|;
          }
        }
      } else {
        assert r == seen;
        forall i, j | 0 <= i < j < |r|
          ensures FirstIndex(xs, r[i]) < FirstIndex(xs, r[j])
        {
          assert r[i] in seen && r[j] in seen;
        }
      }
    }
  }
}
