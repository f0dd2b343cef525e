/** `concurrent_sum`: apply `func` to every argument and add up the results.
    `executor.map` hands the results back in input order, so both branches
    of the source are the same left fold; the worker pool is not modelled. */
module Aggregate {

  /** Python's `sum`: a left fold from 0; non-negative items give a
      non-negative total. */
  function Sum(xs: seq<int>): (r: int)
    ensures (forall i :: 0 <= i < |xs| ==> xs[i] >= 0) ==> r >= 0
    decreases |xs|
  {
    if xs == [] then 0 else Sum(xs[..|xs| - 1]) + xs[|xs| - 1]
  }

  /** The results of `func`, one call per argument, in argument order. */
  function Results<T>(f: T -> int, args: seq<T>): (rs: seq<int>)
    ensures |rs| == |args|
    ensures forall i :: 0 <= i < |args| ==> rs[i] == f(args[i])
  {
    seq(|args|, i requires 0 <= i < |args| => f(args[i]))
  }

  /** `concurrent_sum(func, args)`: one call per argument, results summed.
      Its meaning is given by `ConcurrentSumFromFront`, `ConcurrentSumBounds`,
      `ConcurrentSumAppend` and `ConcurrentSumReordered`. */
  function ConcurrentSum<T>(f: T -> int, args: seq<T>): (r: int)
    ensures args == [] ==> r == 0
  {
    Sum(Results(f, args))
  }

  /** Splitting the results anywhere splits the sum. */
  lemma {:induction false} SumAppend(a: seq<int>, b: seq<int>)
    ensures Sum(a + b) == Sum(a) + Sum(b)
    decreases |b|
  {
    if b != [] {
      var n := |b| - 1;
      assert (a + b)[..|a + b| - 1] == a + b[..n];
      SumAppend(a, b[..n]);
    } else {
      assert a + b == a;
    }
  }

  /** The sum does not depend on the order the results arrive in. */
  lemma {:induction false} SumPermutation(a: seq<int>, b: seq<int>)
    requires multiset(a) == multiset(b)
    ensures Sum(a) == Sum(b)
    decreases |a|
  {
    if a != [] {
      var n := |a| - 1;
      var x := a[n];
      assert x in multiset(b);
      var k :| 0 <= k < |b| && b[k] == x;
      var rest := b[..k] + b[k + 1..];
      assert b == b[..k] + [x] + b[k + 1..];
      assert a == a[..n] + [x];
      assert multiset(b) == multiset(b[..k]) + multiset{x} + multiset(b[k + 1..]);
      assert multiset(a) == multiset(a[..n]) + multiset{x};
      assert multiset(rest) == multiset(b[..k]) + multiset(b[k + 1..]);
      MultisetCancel(multiset(a[..n]), multiset(rest), x);
      SumPermutation(a[..n], rest);
      SumAppend(b[..k] + [x], b[k + 1..]);
      SumAppend(b[..k], [x]);
      SumAppend(b[..k], b[k + 1..]);
      assert Sum([x]) == x by {
        assert [x][..0] == [];
      }
    }
  }

  lemma MultisetCancel<T>(p: multiset<T>, q: multiset<T>, x: T)
    requires p + multiset{x} == q + multiset{x}
    ensures p == q
  {
    forall y
      ensures p[y] == q[y]
    {
      assert (p + multiset{x})[y] == p[y] + multiset{x}[y];
      assert (q + multiset{x})[y] == q[y] + multiset{x}[y];
    }
  }

  /** Non-negative results add up to a total that is non-negative and at
      least each of them; no argument gives 0. */
  lemma {:induction false} SumBounds(xs: seq<int>)
    requires forall i :: 0 <= i < |xs| ==> xs[i] >= 0
    ensures Sum(xs) >= 0
    ensures forall i :: 0 <= i < |xs| ==> xs[i] <= Sum(xs)
    decreases |xs|
  {
    if xs != [] {
      var n := |xs| - 1;
      SumBounds(xs[..n]);
      forall i | 0 <= i < n
        ensures xs[i] <= Sum(xs)
      {
        assert xs[..n][i] == xs[i];
      }
    }
  }

  /** `concurrent_sum` over non-negative counts: 0 for no arguments,
      otherwise at least the count of every single argument. */
  lemma ConcurrentSumBounds<T>(f: T -> int, args: seq<T>)
    requires forall x :: x in args ==> f(x) >= 0
    ensures args == [] ==> ConcurrentSum(f, args) == 0
    ensures ConcurrentSum(f, args) >= 0
    ensures forall i :: 0 <= i < |args| ==> f(args[i]) <= ConcurrentSum(f, args)
  {
    SumBounds(Results(f, args));
  }

  lemma ResultsAppend<T>(f: T -> int, a: seq<T>, b: seq<T>)
    ensures Results(f, a + b) == Results(f, a) + Results(f, b)
  {
  }

  /** Adding arguments adds their counts: the sum over a concatenation is
      the sum of the sums. */
  lemma ConcurrentSumAppend<T>(f: T -> int, a: seq<T>, b: seq<T>)
    ensures ConcurrentSum(f, a + b) == ConcurrentSum(f, a) + ConcurrentSum(f, b)
  {
    ResultsAppend(f, a, b);
    SumAppend(Results(f, a), Results(f, b));
  }

  /** Taking the last argument out of `args` and the same value out of a
      rearrangement `perm` leaves two rearrangements of each other. */
  lemma RemoveMatching<T>(args: seq<T>, perm: seq<T>, k: nat)
    requires args != [] && multiset(args) == multiset(perm)
    requires k < |perm| && perm[k] == args[|args| - 1]
    ensures multiset(args[..|args| - 1]) == multiset(perm[..k] + perm[k + 1..])
  {
    var n, x := |args| - 1, args[|args| - 1];
    var left, right := perm[..k], perm[k + 1..];
    assert perm == left + [x] + right;
    assert args == args[..n] + [x];
    assert multiset(perm) == multiset(left) + multiset{x} + multiset(right);
    assert multiset(args) == multiset(args[..n]) + multiset{x};
    MultisetCancel(multiset(args[..n]), multiset(left + right), x);
  }

  /** Summing with one argument taken out of the middle. */
  lemma ConcurrentSumSplitAt<T>(f: T -> int, perm: seq<T>, k: nat)
    requires k < |perm|
    ensures ConcurrentSum(f, perm) == ConcurrentSum(f, perm[..k] + perm[k + 1..]) + f(perm[k])
  {
    var left, x, right := perm[..k], perm[k], perm[k + 1..];
    assert perm == (left + [x]) + right;
    ConcurrentSumAppend(f, left + [x], right);
    ConcurrentSumAppend(f, left, [x]);
    ConcurrentSumAppend(f, left, right);
    assert ConcurrentSum(f, [x]) == f(x) by {
      assert Results(f, [x]) == [f(x)];
      assert [f(x)][..0] == [];
      assert Sum([f(x)]) == Sum([]) + f(x);
    }
  }

  /** The arguments may be handed to the workers in any order: every
      rearrangement of them yields the same total. */
  lemma {:induction false} ConcurrentSumReordered<T>(f: T -> int, args: seq<T>, perm: seq<T>)
    requires multiset(args) == multiset(perm)
    ensures ConcurrentSum(f, perm) == ConcurrentSum(f, args)
    decreases |args|
  {
    if args != [] {
      var n := |args| - 1;
      assert args[n] in multiset(perm);
      var k :| 0 <= k < |perm| && perm[k] == args[n];
      RemoveMatching(args, perm, k);
      ConcurrentSumReordered(f, args[..n], perm[..k] + perm[k + 1..]);
      ConcurrentSumSplitAt(f, perm, k);
      ConcurrentSumSplitAt(f, args, n);
      assert args[..n] + args[n + 1..] == args[..n];
    } else {
      assert perm == [];
    }
  }

  /** The total is the first argument's result plus the total of the rest:
      each argument is counted once, the fold's direction does not matter. */
  lemma ConcurrentSumFromFront<T>(f: T -> int, args: seq<T>)
    requires args != []
    ensures ConcurrentSum(f, args) == f(args[0]) + ConcurrentSum(f, args[1..])
  {
    assert args == [args[0]] + args[1..];
    ConcurrentSumAppend(f, [args[0]], args[1..]);
    var one := Results(f, [args[0]]);
    assert one == [f(args[0])] && one[..0] == [];
    assert Sum(one) == Sum([]) + f(args[0]);
  }
}
