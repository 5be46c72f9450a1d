// Linear-programming duality for the square assignment problem: the bound
// that makes an assignment found by the Jonker-Volgenant solver
// (Trackers/LAPJV.cs) one of least total cost. Row duals u and column duals
// v are feasible when u[i] + v[j] never exceeds c[i][j]; an assignment whose
// pairs each come within eps of their duals then costs at most n * eps more
// than any other permutation. Cost matrices are values here, rows of reals;
// Entries reads one off a solver's array.

module LapDuality {

  /** Row i takes column p[i]; no column is taken twice. */
  ghost predicate IsPermutation(p: seq<int>, n: int)
  {
    |p| == n &&
    (forall i :: 0 <= i < n ==> 0 <= p[i] < n) &&
    (forall i, i' :: 0 <= i < i' < n ==> p[i] != p[i'])
  }

  /** The entries of a matrix as a value, row by row. */
  ghost function Entries(m: array2<real>): (c: seq<seq<real>>)
    reads m
    ensures |c| == m.Length0 && forall i :: 0 <= i < m.Length0 ==> |c[i]| == m.Length1
    ensures forall i, j :: 0 <= i < m.Length0 && 0 <= j < m.Length1 ==> c[i][j] == m[i, j]
  {
    seq(m.Length0, i requires 0 <= i < m.Length0 reads m =>
      seq(m.Length1, j requires 0 <= j < m.Length1 reads m => m[i, j]))
  }

  /** Two matrices with the same shape and entries have the same value. */
  lemma SameEntries(a: array2<real>, b: array2<real>)
    requires a.Length0 == b.Length0 && a.Length1 == b.Length1
    requires forall i, j :: 0 <= i < a.Length0 && 0 <= j < a.Length1 ==> a[i, j] == b[i, j]
    ensures Entries(a) == Entries(b)
  {
    var ea, eb := Entries(a), Entries(b);
    forall i | 0 <= i < a.Length0
      ensures ea[i] == eb[i]
    {
      assert forall j :: 0 <= j < a.Length1 ==> ea[i][j] == eb[i][j];
    }
  }

  /** n rows of n costs. */
  ghost predicate Square(c: seq<seq<real>>, n: int)
  {
    |c| == n && forall i :: 0 <= i < n ==> |c[i]| == n
  }

  ghost function Sum(s: seq<real>): real
  {
    if |s| == 0 then 0.0 else Sum(s[..|s| - 1]) + s[|s| - 1]
  }

  /** The duals v[p[0]], v[p[1]], ... that a permutation picks. */
  ghost function Picked(v: seq<real>, p: seq<int>): seq<real>
    requires forall i :: 0 <= i < |p| ==> 0 <= p[i] < |v|
  {
    seq(|p|, i requires 0 <= i < |p| => v[p[i]])
  }

  /** The total cost of giving each of the first k rows the column p[i]. */
  ghost function Cost(c: seq<seq<real>>, p: seq<int>, k: int): real
    requires 0 <= k <= |p| && k <= |c|
    requires forall i :: 0 <= i < k ==> 0 <= p[i] < |c[i]|
  {
    if k == 0 then 0.0 else Cost(c, p, k - 1) + c[k - 1][p[k - 1]]
  }

  /** The reduced cost of pairing row i with column j under the duals u and v. */
  ghost function Reduced(c: seq<seq<real>>, u: seq<real>, v: seq<real>, i: int, j: int): real
    requires 0 <= i < |c| && 0 <= j < |c[i]| && i < |u| && j < |v|
  {
    c[i][j] - u[i] - v[j]
  }

  /** No reduced cost of the n x n matrix c is negative. */
  ghost predicate DualFeasible(c: seq<seq<real>>, u: seq<real>, v: seq<real>, n: int)
  {
    Square(c, n) && |u| == n && |v| == n &&
    forall i, j :: 0 <= i < n && 0 <= j < n ==> 0.0 <= Reduced(c, u, v, i, j)
  }

  /** The duals are feasible, and every assigned pair of a has reduced cost below eps. */
  ghost predicate NearTight(c: seq<seq<real>>, u: seq<real>, v: seq<real>, a: seq<int>, n: int, eps: real)
  {
    DualFeasible(c, u, v, n) && |a| == n &&
    forall i :: 0 <= i < n && 0 <= a[i] < n ==> Reduced(c, u, v, i, a[i]) < eps
  }

  lemma {:induction false} SumUpdate(s: seq<real>, k: int, x: real)
    requires 0 <= k < |s|
    ensures Sum(s[k := x]) == Sum(s) - s[k] + x
    decreases |s|
  {
    var m := |s| - 1;
    if k == m {
      assert s[k := x][..m] == s[..m];
    } else {
      assert s[k := x][..m] == s[..m][k := x];
      SumUpdate(s[..m], k, x);
    }
  }

  /** An injective sequence of values below m has at most m entries. */
  lemma {:induction false} InjectiveFits(p: seq<int>, m: nat)
    requires forall i :: 0 <= i < |p| ==> 0 <= p[i] < m
    requires forall i, i' :: 0 <= i < i' < |p| ==> p[i] != p[i']
    ensures |p| <= m
    decreases |p|
  {
    if |p| > 0 {
      var last := |p| - 1;
      var x := p[last];
      // Values m - 1 are renamed x, which no earlier entry holds.
      var q := seq(last, i requires 0 <= i < last => if p[i] == m - 1 then x else p[i]);
      forall i | 0 <= i < last
        ensures 0 <= q[i] < m - 1
      {
        assert p[i] != x;
      }
      forall i, i' | 0 <= i < i' < last
        ensures q[i] != q[i']
      {
        assert p[i] != x && p[i'] != x && p[i] != p[i'];
      }
      InjectiveFits(q, m - 1);
    }
  }

  /** A permutation takes every column (n rows go injectively into n columns). */
  lemma PermutationOnto(p: seq<int>, n: int, j: int)
    requires IsPermutation(p, n) && 0 <= j < n
    ensures exists i :: 0 <= i < n && p[i] == j
  {
    if forall i :: 0 <= i < n ==> p[i] != j {
      var q := seq(n, i requires 0 <= i < n => if p[i] == n - 1 then j else p[i]);
      forall i, i' | 0 <= i < i' < n
        ensures q[i] != q[i']
      {
        assert p[i] != p[i'];
      }
      InjectiveFits(q, n - 1);
    }
  }

  /**
   * Swapping the entry k that holds column n - 1 to the end leaves, in the
   * first n - 1 places, a permutation of n - 1 columns.
   */
  lemma SwapToEnd(p: seq<int>, n: int, k: int) returns (q: seq<int>)
    requires IsPermutation(p, n) && 0 <= k < n && p[k] == n - 1
    ensures q == p[k := p[n - 1]][n - 1 := n - 1][..n - 1]
    ensures IsPermutation(q, n - 1)
  {
    var m := n - 1;
    q := p[k := p[m]][m := m][..m];
    forall i | 0 <= i < m
      ensures 0 <= q[i] < m
    {
      if i != k {
        assert p[i] != p[k];
      } else {
        assert p[m] != p[k];
      }
    }
    forall i, i' | 0 <= i < i' < m
      ensures q[i] != q[i']
    {
      if i == k {
        assert p[i'] != p[m];
      } else if i' == k {
        assert p[i] != p[m];
      } else {
        assert p[i] != p[i'];
      }
    }
  }

  /** Picking the duals through a permutation sums them all. */
  lemma {:induction false} PermutationSum(v: seq<real>, p: seq<int>)
    requires IsPermutation(p, |v|)
    ensures Sum(Picked(v, p)) == Sum(v)
    decreases |v|
  {
    var n := |v|;
    if n > 0 {
      var m := n - 1;
      PermutationOnto(p, n, m);
      var k :| 0 <= k < n && p[k] == m;
      var q := SwapToEnd(p, n, k);
      var s := Picked(v, p);
      var s2 := s[k := s[m]][m := s[k]];
      SwapSum(s, k);
      assert s2[..m] == Picked(v[..m], q);
      PermutationSum(v[..m], q);
      assert v[..m] == v[..n][..m];
    }
  }

  /** Swapping entry k with the last entry keeps the sum. */
  lemma SwapSum(s: seq<real>, k: int)
    requires 0 <= k < |s|
    ensures Sum(s[k := s[|s| - 1]][|s| - 1 := s[k]]) == Sum(s)
  {
    var m := |s| - 1;
    if k < m {
      SumUpdate(s, k, s[m]);
      SumUpdate(s[k := s[m]], m, s[k]);
    } else {
      assert s[k := s[m]][m := s[k]] == s;
    }
  }

  /** Feasible duals bound the cost of any assignment of the first k rows from below. */
  lemma {:induction false} CostAbove(c: seq<seq<real>>, u: seq<real>, v: seq<real>, p: seq<int>, n: int, k: int)
    requires DualFeasible(c, u, v, n) && |p| == n && 0 <= k <= n
    requires forall i :: 0 <= i < n ==> 0 <= p[i] < n
    ensures Sum(u[..k]) + Sum(Picked(v, p[..k])) <= Cost(c, p, k)
  {
    if k > 0 {
      CostAbove(c, u, v, p, n, k - 1);
      assert u[..k][..k - 1] == u[..k - 1];
      assert Picked(v, p[..k])[..k - 1] == Picked(v, p[..k - 1]);
      assert 0.0 <= Reduced(c, u, v, k - 1, p[k - 1]);
    }
  }

  /** Near-tight pairs bound the cost of the first k rows of a from above. */
  lemma {:induction false} CostBelow(c: seq<seq<real>>, u: seq<real>, v: seq<real>, a: seq<int>, n: int, eps: real,
                                     k: int)
    requires NearTight(c, u, v, a, n, eps) && IsPermutation(a, n) && 0 <= k <= n
    ensures Cost(c, a, k) <= Sum(u[..k]) + Sum(Picked(v, a[..k])) + k as real * eps
  {
    if k > 0 {
      CostBelow(c, u, v, a, n, eps, k - 1);
      assert u[..k][..k - 1] == u[..k - 1];
      assert Picked(v, a[..k])[..k - 1] == Picked(v, a[..k - 1]);
      assert Reduced(c, u, v, k - 1, a[k - 1]) < eps;
    }
  }

  /**
   * Weak duality: an assignment whose pairs are all within eps of feasible
   * duals costs at most n * eps more than any permutation.
   */
  lemma NearOptimal(c: seq<seq<real>>, u: seq<real>, v: seq<real>, a: seq<int>, n: int, eps: real)
    requires NearTight(c, u, v, a, n, eps) && IsPermutation(a, n)
    ensures forall p :: IsPermutation(p, n) ==> Cost(c, a, n) <= Cost(c, p, n) + n as real * eps
  {
    forall p | IsPermutation(p, n)
      ensures Cost(c, a, n) <= Cost(c, p, n) + n as real * eps
    {
      CostAbove(c, u, v, p, n, n);
      CostBelow(c, u, v, a, n, eps, n);
      PermutationSum(v, p);
      PermutationSum(v, a);
      assert p[..n] == p && a[..n] == a;
    }
  }
}
