/** Iterating a function from a point: return times, periods, and the points an orbit visits. */
module Orbit {
  import opened Words
  import opened Divisors

  function Iterate(f: nat -> nat, n: nat, x: nat): nat {
    if n == 0 then x else f(Iterate(f, n - 1, x))
  }

  lemma {:induction false} IterateAdds(f: nat -> nat, m: nat, n: nat, x: nat)
    ensures Iterate(f, m + n, x) == Iterate(f, m, Iterate(f, n, x))
    decreases m
  {
    if m != 0 {
      IterateAdds(f, m - 1, n, x);
    }
  }

  predicate Returns(f: nat -> nat, n: nat, x: nat) { Iterate(f, n, x) == x }

  lemma {:induction false} MultiplesReturn(f: nat -> nat, d: nat, k: nat, x: nat)
    requires Returns(f, d, x)
    ensures Returns(f, k * d, x)
    decreases k
  {
    if k != 0 {
      MultiplesReturn(f, d, k - 1, x);
      IterateAdds(f, d, (k - 1) * d, x);
      assert k * d == d + (k - 1) * d;
    } else {
      assert 0 * d == 0;
    }
  }

  /** The smallest positive return time divides every return time. */
  lemma LeastDivides(f: nat -> nat, d: nat, n: nat, x: nat)
    requires 0 < d && Returns(f, d, x) && Returns(f, n, x)
    requires forall e :: 0 < e < d ==> !Returns(f, e, x)
    ensures n % d == 0
  {
    var k, r := n / d, n % d;
    assert n == r + k * d;
    MultiplesReturn(f, d, k, x);
    IterateAdds(f, r, k * d, x);
    assert Returns(f, r, x);
  }

  lemma {:induction false} LeastReturn(f: nat -> nat, n: nat, x: nat) returns (d: nat)
    requires 0 < n && Returns(f, n, x)
    ensures 0 < d <= n && Returns(f, d, x) && forall e :: 0 < e < d ==> !Returns(f, e, x)
    decreases n
  {
    if e :| 0 < e < n && Returns(f, e, x) {
      d := LeastReturn(f, e, x);
    } else {
      d := n;
    }
  }

  /** n is the least return time when it is one and none of the maximal proper divisors is. */
  lemma PeriodByDivisors(f: nat -> nat, n: nat, x: nat, ms: seq<nat>)
    requires 0 < n && Returns(f, n, x) && Covers(ms, n)
    requires forall i :: 0 <= i < |ms| ==> !Returns(f, ms[i], x)
    ensures forall e :: 0 < e < n ==> !Returns(f, e, x)
  {
    var d := LeastReturn(f, n, x);
    LeastDivides(f, d, n, x);
    if d < n {
      var i :| 0 <= i < |ms| && ms[i] % d == 0;
      assert ms[i] == ms[i] / d * d;
      MultiplesReturn(f, d, ms[i] / d, x);
      assert false;
    }
  }

  /** Within one period all points differ. */
  lemma PointsDiffer(f: nat -> nat, n: nat, x: nat, i: nat, j: nat)
    requires i < j < n && Returns(f, n, x)
    requires forall e :: 0 < e < n ==> !Returns(f, e, x)
    ensures Iterate(f, i, x) != Iterate(f, j, x)
  {
    if Iterate(f, i, x) == Iterate(f, j, x) {
      IterateAdds(f, n - i, i, x);
      IterateAdds(f, n - i, j, x);
      IterateAdds(f, j - i, n, x);
      assert n - i + j == j - i + n;
      assert Returns(f, j - i, x);
    }
  }

  ghost function Members(s: seq<nat>): (r: set<nat>)
    ensures forall y :: y in r <==> y in s
  {
    if s == [] then {}
    else
      assert s == s[..|s| - 1] + [s[|s| - 1]];
      Members(s[..|s| - 1]) + {s[|s| - 1]}
  }

  lemma {:induction false} DistinctSize(s: seq<nat>)
    requires forall i, j :: 0 <= i < j < |s| ==> s[i] != s[j]
    ensures |Members(s)| == |s|
  {
    if s != [] {
      DistinctSize(s[..|s| - 1]);
    }
  }

  ghost function UpTo(n: nat): (s: set<nat>)
    ensures |s| == n && forall y :: y in s <==> 0 < y <= n
  {
    if n == 0 then {} else UpTo(n - 1) + {n}
  }

  lemma FullSubset(a: set<nat>, b: set<nat>)
    requires a <= b && |a| == |b|
    ensures a == b
  {
    assert |b - a| == |b| - |a|;
  }

  /** An orbit of period n inside 1..n visits all of 1..n. */
  lemma VisitsAll(f: nat -> nat, n: nat, x: nat, y: nat) returns (i: nat)
    requires Returns(f, n, x) && 0 < y <= n
    requires forall e :: 0 < e < n ==> !Returns(f, e, x)
    requires forall k :: 0 <= k < n ==> 0 < Iterate(f, k, x) <= n
    ensures i < n && Iterate(f, i, x) == y
  {
    var trace := seq(n, k requires 0 <= k => Iterate(f, k, x));
    forall k, j | 0 <= k < j < n
      ensures trace[k] != trace[j]
    {
      PointsDiffer(f, n, x, k, j);
    }
    DistinctSize(trace);
    assert forall z :: z in trace ==> z in UpTo(n);
    FullSubset(Members(trace), UpTo(n));
    assert y in trace;
    i :| 0 <= i < n && y == trace[i];
  }
}
