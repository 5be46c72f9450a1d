// The Jonker-Volgenant style linear-assignment solver used by the SORT
// tracker (Trackers/LAPJV.cs). The solver pads a rectangular cost matrix to a
// square one, reduces rows and columns, assigns greedily on zero reduced
// costs and then extends the assignment along shortest augmenting paths.
// Costs are modelled as reals; float rounding and overflow are not.

module Lapjv {
  import opened Common
  import opened LapDuality

  const BaseEpsilon: real := 0.000001
  const PadMultiplier: real := 10.0
  const PadOffset: real := 1.0
  /** float.MaxValue; float.MinValue is its negation. */
  const MaxFloat: real := 340282346638528859811704183484516925440.0

  /** Why Solve throws; the library raises a YoloDotNetException in every case. */
  datatype Failure = NullMatrix | ZeroDimension | NoAugmentingPath

  datatype Outcome<T> = Solved(value: T) | Failed(why: Failure)

  /** rowsol and colsol are mutual inverses on their assigned entries; -1 means unassigned. */
  ghost predicate Matching(rowsol: seq<int>, colsol: seq<int>, n: int)
  {
    |rowsol| == n && |colsol| == n &&
    (forall i :: 0 <= i < n && rowsol[i] != -1 ==> 0 <= rowsol[i] < n && colsol[rowsol[i]] == i) &&
    (forall j :: 0 <= j < n && colsol[j] != -1 ==> 0 <= colsol[j] < n && rowsol[colsol[j]] == j)
  }

  /** A row-to-column assignment of an nRows x nCols problem: -1 or a column, no column twice. */
  ghost predicate IsAssignment(a: seq<int>, nRows: int, nCols: int)
  {
    |a| == nRows &&
    (forall i :: 0 <= i < nRows ==> a[i] == -1 || 0 <= a[i] < nCols) &&
    (forall i1, i2 :: 0 <= i1 < i2 < nRows && a[i1] != -1 ==> a[i1] != a[i2])
  }

  /** The columns not yet visited by the current shortest-path search. */
  ghost function Unseen(seen: seq<bool>): set<int>
  {
    set k | 0 <= k < |seen| && !seen[k]
  }

  /** Visiting an unvisited column shrinks the unvisited set. */
  lemma VisitShrinks(seen: seq<bool>, j: int)
    requires 0 <= j < |seen| && !seen[j]
    ensures Unseen(seen[j := true]) < Unseen(seen)
  {
    assert j in Unseen(seen) && j !in Unseen(seen[j := true]);
  }

  /**
   * Solves the assignment problem for a cost matrix: each row gets a
   * distinct column or -1 (more rows than columns), and every row gets a
   * column when there are at least as many columns as rows. For a square
   * matrix no permutation costs less than the result by more than n times
   * the tolerance. This is the corrected solver: the augmenting searches run
   * on the unreduced padded matrix with the reduction's duals.
   */
  method Solve(costMatrix: array2?<real>) returns (r: Outcome<array<int>>)
    ensures costMatrix == null ==> r == Failed(NullMatrix)
    ensures costMatrix != null && (costMatrix.Length0 == 0 || costMatrix.Length1 == 0) ==> r == Failed(ZeroDimension)
    ensures r.Solved? ==> costMatrix != null && IsAssignment(r.value[..], costMatrix.Length0, costMatrix.Length1)
    ensures r.Solved? && costMatrix != null && costMatrix.Length0 <= costMatrix.Length1 ==>
              forall i :: 0 <= i < r.value.Length ==> r.value[i] != -1
    ensures r.Solved? && costMatrix != null && costMatrix.Length0 == costMatrix.Length1 ==>
              LeastCostWithin(Entries(costMatrix), r.value[..], Tolerance(costMatrix))
    ensures (costMatrix != null && 0 < costMatrix.Length0 && 0 < costMatrix.Length1 &&
             exists bound :: Moderate(costMatrix, bound)) ==> r.Solved?
  {
    if costMatrix == null {
      return Failed(NullMatrix);
    }
    var nRows := costMatrix.Length0;
    var nCols := costMatrix.Length1;
    if nRows == 0 || nCols == 0 {
      return Failed(ZeroDimension);
    }
    var n := Max(nRows, nCols);
    var cost, maxCost := PadCostMatrix(costMatrix, nRows, nCols, n);
    var epsilon := MaxReal(BaseEpsilon, maxCost * 0.000001);
    assert epsilon == Tolerance(costMatrix);
    var u, v, rowsol, colsol := StartingDuals(cost, n, epsilon);
    ghost var padBound := StartBound(costMatrix, cost, maxCost, n, u[..], v[..]);
    var ok := Augment(cost, u, v, rowsol, colsol, n, epsilon, padBound);
    if !ok {
      return Failed(NoAugmentingPath);
    }
    var assignment := ExtractSolved(costMatrix, cost, rowsol, colsol, n, epsilon);
    r := Solved(assignment);
  }

  /** Every cost of m lies within bound of zero. */
  ghost predicate CostsWithin(m: array2<real>, bound: real)
    reads m
  {
    forall i, j :: 0 <= i < m.Length0 && 0 <= j < m.Length1 ==> -bound <= m[i, j] <= bound
  }

  /**
   * The costs of m lie within bound of zero, and bound is small enough that
   * no dual or distance of the padded problem reaches float.MaxValue: twice
   * the side times the padded bound stays below it.
   */
  ghost predicate Moderate(m: array2<real>, bound: real)
    reads m
  {
    CostsWithin(m, bound) &&
    2.0 * (Max(m.Length0, m.Length1) as real) * (PadMultiplier * bound + PadOffset) < MaxFloat
  }

  /**
   * Solve's start on moderate costs is within ten times their bound plus
   * one: the padded entries are, the row duals are padded entries, and the
   * column duals are not negative.
   */
  lemma StartBound(m: array2<real>, cost: array2<real>, maxCost: real, n: int, u: seq<real>, v: seq<real>)
    returns (padBound: real)
    requires 0 < m.Length0 && 0 < m.Length1 && n == Max(m.Length0, m.Length1)
    requires cost.Length0 == n && cost.Length1 == n && IsLargestCost(m, maxCost) && |u| == n && |v| == n
    requires forall i, j :: 0 <= i < m.Length0 && 0 <= j < m.Length1 ==> cost[i, j] == m[i, j]
    requires forall i, j :: 0 <= i < n && 0 <= j < n && (m.Length0 <= i || m.Length1 <= j) ==>
               cost[i, j] == maxCost * PadMultiplier + PadOffset
    requires forall i :: 0 <= i < n ==> u[i] == MaxFloat || exists j :: 0 <= j < n && u[i] == cost[i, j]
    requires forall j :: 0 <= j < n ==> 0.0 <= v[j]
    ensures (exists bound :: Moderate(m, bound)) ==> StartWithin(Entries(cost), u, v, n, padBound)
  {
    padBound := 0.0;
    if b :| Moderate(m, b) {
      padBound := PadMultiplier * b + PadOffset;
      BoundedStart(m, cost, maxCost, n, u, v, b);
    }
  }

  /** StartBound for a given bound on the caller's costs. */
  lemma BoundedStart(m: array2<real>, cost: array2<real>, maxCost: real, n: int, u: seq<real>, v: seq<real>,
                     bound: real)
    requires 0 < m.Length0 && 0 < m.Length1 && n == Max(m.Length0, m.Length1)
    requires cost.Length0 == n && cost.Length1 == n && IsLargestCost(m, maxCost) && |u| == n && |v| == n
    requires forall i, j :: 0 <= i < m.Length0 && 0 <= j < m.Length1 ==> cost[i, j] == m[i, j]
    requires forall i, j :: 0 <= i < n && 0 <= j < n && (m.Length0 <= i || m.Length1 <= j) ==>
               cost[i, j] == maxCost * PadMultiplier + PadOffset
    requires forall i :: 0 <= i < n ==> u[i] == MaxFloat || exists j :: 0 <= j < n && u[i] == cost[i, j]
    requires forall j :: 0 <= j < n ==> 0.0 <= v[j]
    requires Moderate(m, bound)
    ensures StartWithin(Entries(cost), u, v, n, PadMultiplier * bound + PadOffset)
  {
    PaddedWithin(m, cost, maxCost, bound, n);
    StartsWithin(cost, u, v, n, PadMultiplier * bound + PadOffset);
  }

  /** Padding costs within bound gives entries within ten times bound plus one. */
  lemma PaddedWithin(m: array2<real>, cost: array2<real>, maxCost: real, bound: real, n: int)
    requires 0 < m.Length0 && 0 < m.Length1 && n == Max(m.Length0, m.Length1)
    requires cost.Length0 == n && cost.Length1 == n
    requires Moderate(m, bound) && IsLargestCost(m, maxCost)
    requires forall i, j :: 0 <= i < m.Length0 && 0 <= j < m.Length1 ==> cost[i, j] == m[i, j]
    requires forall i, j :: 0 <= i < n && 0 <= j < n && (m.Length0 <= i || m.Length1 <= j) ==>
               cost[i, j] == maxCost * PadMultiplier + PadOffset
    ensures CostsWithin(cost, PadMultiplier * bound + PadOffset)
    ensures 2.0 * (n as real) * (PadMultiplier * bound + PadOffset) < MaxFloat
  {
    var padded := PadMultiplier * bound + PadOffset;
    assert -bound <= m[0, 0] <= maxCost;
    assert maxCost <= bound by {
      if maxCost != -MaxFloat {
        var i, j :| 0 <= i < m.Length0 && 0 <= j < m.Length1 && m[i, j] == maxCost;
      }
    }
    forall i, j | 0 <= i < n && 0 <= j < n
      ensures -padded <= cost[i, j] <= padded
    {
      if i < m.Length0 && j < m.Length1 {
        assert -bound <= m[i, j] <= bound;
      }
    }
  }

  /** The starting duals of costs within bound: row minima are costs, column minima are not negative. */
  lemma StartsWithin(cost: array2<real>, u: seq<real>, v: seq<real>, n: int, bound: real)
    requires cost.Length0 == n && cost.Length1 == n && CostsWithin(cost, bound)
    requires 2.0 * (n as real) * bound < MaxFloat && |u| == n && |v| == n
    requires forall i :: 0 <= i < n ==> u[i] == MaxFloat || exists j :: 0 <= j < n && u[i] == cost[i, j]
    requires forall j :: 0 <= j < n ==> 0.0 <= v[j]
    ensures StartWithin(Entries(cost), u, v, n, bound)
  {
    forall i | 0 <= i < n
      ensures -bound <= u[i]
    {
      assert -bound <= cost[i, 0] <= bound;
    }
  }

  /**
   * Solve's last step once every row is assigned: the original rows'
   * columns, and for a square matrix the least cost carried over from the
   * padded matrix.
   */
  method ExtractSolved(costMatrix: array2<real>, cost: array2<real>, rowsol: array<int>, colsol: array<int>,
                       n: int, epsilon: real) returns (assignment: array<int>)
    requires n == Max(costMatrix.Length0, costMatrix.Length1) && cost.Length0 == n && cost.Length1 == n
    requires forall i, j :: 0 <= i < costMatrix.Length0 && 0 <= j < costMatrix.Length1 ==> cost[i, j] == costMatrix[i, j]
    requires Matching(rowsol[..], colsol[..], n) && IsPermutation(rowsol[..], n)
    requires forall p :: IsPermutation(p, n) ==>
               Cost(Entries(cost), rowsol[..], n) <= Cost(Entries(cost), p, n) + n as real * epsilon
    requires epsilon == Tolerance(costMatrix)
    ensures fresh(assignment) && IsAssignment(assignment[..], costMatrix.Length0, costMatrix.Length1)
    ensures costMatrix.Length0 <= costMatrix.Length1 ==> forall i :: 0 <= i < assignment.Length ==> assignment[i] != -1
    ensures costMatrix.Length0 == costMatrix.Length1 ==> LeastCostWithin(Entries(costMatrix), assignment[..], Tolerance(costMatrix))
  {
    var nRows, nCols := costMatrix.Length0, costMatrix.Length1;
    if nRows == nCols {
      SquareOptimal(costMatrix, cost, rowsol[..], n, epsilon);
    }
    assignment := ExtractAssignment(rowsol, nRows, nCols);
    ExtractedIsAssignment(rowsol[..], colsol[..], assignment[..], n, nRows, nCols);
  }

  /**
   * a is a permutation of the square matrix c's columns, and no permutation
   * costs less than it by more than n * eps.
   */
  ghost predicate LeastCostWithin(c: seq<seq<real>>, a: seq<int>, eps: real)
  {
    Square(c, |c|) && IsPermutation(a, |c|) &&
    forall p :: IsPermutation(p, |c|) ==> Cost(c, a, |c|) <= Cost(c, p, |c|) + |c| as real * eps
  }

  /**
   * A square matrix is its own padding, so the least cost found on the
   * padded matrix is the least cost on the caller's.
   */
  lemma SquareOptimal(m: array2<real>, cost: array2<real>, a: seq<int>, n: int, eps: real)
    requires m.Length0 == n && m.Length1 == n && cost.Length0 == n && cost.Length1 == n
    requires forall i, j :: 0 <= i < n && 0 <= j < n ==> cost[i, j] == m[i, j]
    requires IsPermutation(a, n)
    requires forall p :: IsPermutation(p, n) ==> Cost(Entries(cost), a, n) <= Cost(Entries(cost), p, n) + n as real * eps
    requires eps == Tolerance(m)
    ensures LeastCostWithin(Entries(m), a, Tolerance(m))
  {
    SameEntries(cost, m);
    LeastOfSquare(Entries(m), a, n, eps);
  }

  /** The least-cost bound over the permutations of n columns is LeastCostWithin of an n x n matrix. */
  lemma LeastOfSquare(c: seq<seq<real>>, a: seq<int>, n: int, eps: real)
    requires Square(c, n) && IsPermutation(a, n)
    requires forall p :: IsPermutation(p, n) ==> Cost(c, a, n) <= Cost(c, p, n) + n as real * eps
    ensures LeastCostWithin(c, a, eps)
  {
  }

  /**
   * The corrected start: the row and column reductions and the greedy pass
   * work on a copy, so cost stays unreduced and u, v are duals of it under
   * which every greedily assigned pair is tight within epsilon.
   */
  method StartingDuals(cost: array2<real>, n: int, epsilon: real)
    returns (u: array<real>, v: array<real>, rowsol: array<int>, colsol: array<int>)
    requires cost.Length0 == n && cost.Length1 == n
    ensures fresh(u) && fresh(v) && fresh(rowsol) && fresh(colsol) && u != v && rowsol != colsol
    ensures u.Length == n && v.Length == n && rowsol.Length == n && colsol.Length == n
    ensures Matching(rowsol[..], colsol[..], n) && NearTight(Entries(cost), u[..], v[..], rowsol[..], n, epsilon)
    ensures forall i :: 0 <= i < n ==> u[i] == MaxFloat || exists j :: 0 <= j < n && u[i] == cost[i, j]
    ensures forall j :: 0 <= j < n ==> 0.0 <= v[j]
  {
    u := new real[n];
    v := new real[n];
    rowsol := CreateInitializedArray(n, -1);
    colsol := CreateInitializedArray(n, -1);
    var reduced := CopyMatrix(cost, n);
    ReduceRows(reduced, u, n);
    ReduceColumns(reduced, v, n);
    assert forall i, j :: 0 <= i < n && 0 <= j < n ==> reduced[i, j] == Reduced(Entries(cost), u[..], v[..], i, j);
    InitialAssignment(reduced, rowsol, colsol, epsilon, n);
  }

  method CopyMatrix(a: array2<real>, n: int) returns (b: array2<real>)
    requires a.Length0 == n && a.Length1 == n
    ensures fresh(b) && b.Length0 == n && b.Length1 == n
    ensures forall i, j :: 0 <= i < n && 0 <= j < n ==> b[i, j] == a[i, j]
  {
    b := new real[n, n];
    for i := 0 to n
      invariant forall i', j :: 0 <= i' < i && 0 <= j < n ==> b[i', j] == a[i', j]
    {
      for j := 0 to n
        invariant forall i', j' :: 0 <= i' < i && 0 <= j' < n ==> b[i', j'] == a[i', j']
        invariant forall j' :: 0 <= j' < j ==> b[i, j'] == a[i, j']
      {
        b[i, j] := a[i, j];
      }
    }
  }

  /**
   * Solve as written: the search runs on the reduced matrix while also
   * subtracting the duals that reduced it (LAPJV.cs:238, 280), so reduced
   * costs are counted twice; the result is an assignment, but not always
   * one of least cost (see SuboptimalOnTwoByTwo).
   */
  method SolveAsWritten(costMatrix: array2?<real>) returns (r: Outcome<array<int>>)
    ensures costMatrix == null ==> r == Failed(NullMatrix)
    ensures costMatrix != null && (costMatrix.Length0 == 0 || costMatrix.Length1 == 0) ==> r == Failed(ZeroDimension)
    ensures r.Solved? ==> costMatrix != null && IsAssignment(r.value[..], costMatrix.Length0, costMatrix.Length1)
    ensures r.Solved? && costMatrix != null && costMatrix.Length0 <= costMatrix.Length1 ==>
              forall i :: 0 <= i < r.value.Length ==> r.value[i] != -1
  {
    if costMatrix == null {
      return Failed(NullMatrix);
    }
    var nRows := costMatrix.Length0;
    var nCols := costMatrix.Length1;
    if nRows == 0 || nCols == 0 {
      return Failed(ZeroDimension);
    }
    var n := Max(nRows, nCols);
    var cost, maxCost := PadCostMatrix(costMatrix, nRows, nCols, n);
    var epsilon := MaxReal(BaseEpsilon, maxCost * 0.000001);
    var u := new real[n];
    var v := new real[n];
    var rowsol := CreateInitializedArray(n, -1);
    var colsol := CreateInitializedArray(n, -1);
    ReduceRows(cost, u, n);
    ReduceColumns(cost, v, n);
    InitialAssignment(cost, rowsol, colsol, epsilon, n);
    var ok := AugmentAsWritten(cost, u, v, rowsol, colsol, n, epsilon);
    if !ok {
      return Failed(NoAugmentingPath);
    }
    var assignment := ExtractAssignment(rowsol, nRows, nCols);
    ExtractedIsAssignment(rowsol[..], colsol[..], assignment[..], n, nRows, nCols);
    return Solved(assignment);
  }

  /**
   * SolveAsWritten on the costs [[0, 2], [0, 3]], replayed step by step: the
   * reductions leave [[0, 0], [0, 1]] with u = [0, 0] and v = [0, 2], and row
   * 0 takes column 0. Row 1 is the only free row, so Augment's loop runs one
   * search, which subtracts v a second time: column 1 looks nearer
   * (1 - 0 - 2 < 0 - 0 - 0) and, being free, ends the path. The result
   * [0, 1] costs 3 where [1, 0] costs 2.
   */
  method SuboptimalOnTwoByTwo() returns (m: array2<real>, a: array<int>)
    ensures m.Length0 == 2 && m.Length1 == 2
    ensures m[0, 0] == 0.0 && m[0, 1] == 2.0 && m[1, 0] == 0.0 && m[1, 1] == 3.0
    ensures a[..] == [0, 1] && Cost(Entries(m), a[..], 2) == 3.0
    ensures IsPermutation([1, 0], 2) && Cost(Entries(m), [1, 0], 2) == 2.0
    ensures !LeastCostWithin(Entries(m), a[..], Tolerance(m))
  {
    m := new real[2, 2];
    m[0, 0], m[0, 1], m[1, 0], m[1, 1] := 0.0, 2.0, 0.0, 3.0;
    var cost, u, v, epsilon := ReduceTwoByTwo(m);
    var rowsol, colsol := GreedyTwoByTwo(cost, epsilon);
    SearchTwoByTwo(cost, u, v, rowsol, colsol);
    a := ExtractAssignment(rowsol, 2, 2);
    assert a[..] == [0, 1];
    CostsOfTwoByTwo(Entries(m), epsilon);
  }

  /**
   * AugmentAsWritten's one search, for the free row 1: column 1 looks
   * nearest, is free, and row 1 takes it.
   */
  method SearchTwoByTwo(cost: array2<real>, u: array<real>, v: array<real>, rowsol: array<int>, colsol: array<int>)
    requires cost.Length0 == 2 && cost.Length1 == 2 && u.Length == 2 && v.Length == 2 && u != v
    requires cost[0, 0] == 0.0 && cost[0, 1] == 0.0 && cost[1, 0] == 0.0 && cost[1, 1] == 1.0
    requires u[..] == [0.0, 0.0] && v[..] == [0.0, 2.0]
    requires rowsol != colsol && rowsol.Length == 2 && colsol.Length == 2
    requires rowsol[..] == [0, -1] && colsol[..] == [0, -1] && Matching(rowsol[..], colsol[..], 2)
    modifies u, v, rowsol, colsol
    ensures rowsol[..] == [0, 1]
  {
    NearestOfTwoByTwo(Entries(cost), u[..], v[..]);
    var dist := new real[2];
    var pred := new int[2];
    var seen := new bool[2];
    var found := AugmentRowAsWritten(cost, u, v, rowsol, colsol, dist, pred, seen, 1, 2);
    assert rowsol[..] == [0, -1][1 := 1];
  }

  /** InitialAssignment on the reduced [[0, 0], [0, 1]]: row 0 takes column 0, row 1 stays free. */
  method GreedyTwoByTwo(cost: array2<real>, epsilon: real) returns (rowsol: array<int>, colsol: array<int>)
    requires cost.Length0 == 2 && cost.Length1 == 2 && 0.0 < epsilon < 1.0
    requires cost[0, 0] == 0.0 && cost[0, 1] == 0.0 && cost[1, 0] == 0.0 && cost[1, 1] == 1.0
    ensures fresh(rowsol) && fresh(colsol) && rowsol != colsol && rowsol.Length == 2 && colsol.Length == 2
    ensures rowsol[..] == [0, -1] && colsol[..] == [0, -1] && Matching(rowsol[..], colsol[..], 2)
  {
    rowsol := CreateInitializedArray(2, -1);
    colsol := CreateInitializedArray(2, -1);
    InitialAssignment(cost, rowsol, colsol, epsilon, 2);
    assert rowsol[0] == 0 && rowsol[1] == -1 && colsol[1] == -1;
  }

  /** From row 1 of [[0, 0], [0, 1]] under u = [0, 0] and v = [0, 2], column 1 looks nearest. */
  lemma NearestOfTwoByTwo(c: seq<seq<real>>, u: seq<real>, v: seq<real>)
    requires Square(c, 2) && c[0][0] == 0.0 && c[0][1] == 0.0 && c[1][0] == 0.0 && c[1][1] == 1.0
    requires u == [0.0, 0.0] && v == [0.0, 2.0]
    ensures FirstNearest(c, u, v, 1, 2, 1)
  {
    assert Reduced(c, u, v, 1, 1) == -1.0 && Reduced(c, u, v, 1, 0) == 0.0;
  }

  /** On [[0, 2], [0, 3]], [0, 1] costs 3 and [1, 0] costs 2: more than 2 * eps apart. */
  lemma CostsOfTwoByTwo(c: seq<seq<real>>, eps: real)
    requires Square(c, 2) && c[0][0] == 0.0 && c[0][1] == 2.0 && c[1][0] == 0.0 && c[1][1] == 3.0
    requires eps < 0.5
    ensures Cost(c, [0, 1], 2) == 3.0
    ensures IsPermutation([1, 0], 2) && Cost(c, [1, 0], 2) == 2.0
    ensures !LeastCostWithin(c, [0, 1], eps)
  {
    var a, b := [0, 1], [1, 0];
    assert Cost(c, a, 1) == 0.0 && Cost(c, a, 2) == Cost(c, a, 1) + c[1][1];
    assert Cost(c, b, 1) == 2.0 && Cost(c, b, 2) == Cost(c, b, 1) + c[1][0];
  }

  /**
   * The first steps of SolveAsWritten on [[0, 2], [0, 3]]: padding (none is
   * needed), the tolerance, and the row and column reductions in place.
   */
  method ReduceTwoByTwo(m: array2<real>) returns (cost: array2<real>, u: array<real>, v: array<real>, epsilon: real)
    requires m.Length0 == 2 && m.Length1 == 2
    requires m[0, 0] == 0.0 && m[0, 1] == 2.0 && m[1, 0] == 0.0 && m[1, 1] == 3.0
    ensures fresh(cost) && fresh(u) && fresh(v) && u != v
    ensures cost.Length0 == 2 && cost.Length1 == 2 && u.Length == 2 && v.Length == 2
    ensures cost[0, 0] == 0.0 && cost[0, 1] == 0.0 && cost[1, 0] == 0.0 && cost[1, 1] == 1.0
    ensures u[..] == [0.0, 0.0] && v[..] == [0.0, 2.0]
    ensures epsilon == Tolerance(m) && 0.0 < epsilon < 0.5
  {
    var maxCost;
    cost, maxCost := PadCostMatrix(m, 2, 2, 2);
    assert maxCost == 3.0;
    epsilon := MaxReal(BaseEpsilon, maxCost * 0.000001);
    u := new real[2];
    v := new real[2];
    ReduceRowsOfTwoByTwo(cost, u);
    ReduceColumnsOfTwoByTwo(cost, v);
  }

  /** ReduceRows on [[0, 2], [0, 3]]: both row minima are 0. */
  method ReduceRowsOfTwoByTwo(cost: array2<real>, u: array<real>)
    requires cost.Length0 == 2 && cost.Length1 == 2 && u.Length == 2
    requires cost[0, 0] == 0.0 && cost[0, 1] == 2.0 && cost[1, 0] == 0.0 && cost[1, 1] == 3.0
    modifies cost, u
    ensures cost[0, 0] == 0.0 && cost[0, 1] == 2.0 && cost[1, 0] == 0.0 && cost[1, 1] == 3.0
    ensures u[..] == [0.0, 0.0]
  {
    ReduceRows(cost, u, 2);
    assert u[0] == 0.0 && u[1] == 0.0;
  }

  /** ReduceColumns on [[0, 2], [0, 3]]: the column minima are 0 and 2. */
  method ReduceColumnsOfTwoByTwo(cost: array2<real>, v: array<real>)
    requires cost.Length0 == 2 && cost.Length1 == 2 && v.Length == 2
    requires cost[0, 0] == 0.0 && cost[0, 1] == 2.0 && cost[1, 0] == 0.0 && cost[1, 1] == 3.0
    modifies cost, v
    ensures cost[0, 0] == 0.0 && cost[0, 1] == 0.0 && cost[1, 0] == 0.0 && cost[1, 1] == 1.0
    ensures v[..] == [0.0, 2.0]
  {
    ReduceColumns(cost, v, 2);
    assert v[0] == 0.0 && v[1] == 2.0;
  }

  /**
   * x is the largest cost of m, or float.MinValue when no cost exceeds it:
   * the value PadCostMatrix's scan ends on.
   */
  ghost predicate IsLargestCost(m: array2<real>, x: real)
    reads m
  {
    -MaxFloat <= x && (forall i, j :: 0 <= i < m.Length0 && 0 <= j < m.Length1 ==> m[i, j] <= x) &&
    (x == -MaxFloat || exists i, j :: 0 <= i < m.Length0 && 0 <= j < m.Length1 && m[i, j] == x)
  }

  ghost function LargestCost(m: array2<real>): real
    reads m
  {
    LargestCostExists(m);
    var x :| IsLargestCost(m, x); x
  }

  /** Solve's tolerance for a zero reduced cost: 1e-6, or 1e-6 of the largest cost when that is more. */
  ghost function Tolerance(m: array2<real>): real
    reads m
  {
    MaxReal(BaseEpsilon, LargestCost(m) * 0.000001)
  }

  /** At most one value is the largest cost. */
  lemma LargestCostUnique(m: array2<real>, x: real, y: real)
    requires IsLargestCost(m, x) && IsLargestCost(m, y)
    ensures x == y
  {
  }

  /** Every matrix has a largest cost: the running maximum over its rows is one. */
  lemma LargestCostExists(m: array2<real>)
    ensures exists x :: IsLargestCost(m, x)
  {
    var rows := seq(m.Length0, i requires 0 <= i < m.Length0 reads m =>
                  seq(m.Length1, j requires 0 <= j < m.Length1 reads m => m[i, j]));
    RowsScanBounds(rows, m.Length0);
    var x := RowsScan(rows, m.Length0);
    forall i, j | 0 <= i < m.Length0 && 0 <= j < m.Length1
      ensures m[i, j] <= x
    {
      assert rows[i][j] == m[i, j];
    }
    if x != -MaxFloat {
      var i, j :| 0 <= i < m.Length0 && 0 <= j < |rows[i]| && rows[i][j] == x;
      assert m[i, j] == x;
    }
    assert IsLargestCost(m, x);
  }

  /** The running maximum over the first j costs of a row, starting from acc. */
  ghost function RowScan(row: seq<real>, j: int, acc: real): real
    requires 0 <= j <= |row|
  {
    if j == 0 then acc
    else
      var prev := RowScan(row, j - 1, acc);
      if row[j - 1] > prev then row[j - 1] else prev
  }

  /** The running maximum over the first i rows, starting from float.MinValue. */
  ghost function RowsScan(rows: seq<seq<real>>, i: int): real
    requires 0 <= i <= |rows|
  {
    if i == 0 then -MaxFloat else RowScan(rows[i - 1], |rows[i - 1]|, RowsScan(rows, i - 1))
  }

  /** A row scan ends at or above its seed, above every cost it passed, and on the seed or one of them. */
  lemma {:induction false} RowScanBounds(row: seq<real>, j: int, acc: real)
    requires 0 <= j <= |row|
    ensures acc <= RowScan(row, j, acc)
    ensures forall j' :: 0 <= j' < j ==> row[j'] <= RowScan(row, j, acc)
    ensures RowScan(row, j, acc) == acc || exists j' :: 0 <= j' < j && row[j'] == RowScan(row, j, acc)
  {
    if j > 0 {
      RowScanBounds(row, j - 1, acc);
    }
  }

  /** The scan over the first k rows is their largest cost, or float.MinValue when it is not above it. */
  lemma {:induction false} RowsScanBounds(rows: seq<seq<real>>, k: int)
    requires 0 <= k <= |rows|
    ensures -MaxFloat <= RowsScan(rows, k)
    ensures forall i, j :: 0 <= i < k && 0 <= j < |rows[i]| ==> rows[i][j] <= RowsScan(rows, k)
    ensures RowsScan(rows, k) == -MaxFloat ||
            exists i, j :: 0 <= i < k && 0 <= j < |rows[i]| && rows[i][j] == RowsScan(rows, k)
  {
    if k > 0 {
      RowsScanBounds(rows, k - 1);
      RowScanBounds(rows[k - 1], |rows[k - 1]|, RowsScan(rows, k - 1));
    }
  }

  method PadCostMatrix(costMatrix: array2<real>, nRows: int, nCols: int, n: int)
    returns (cost: array2<real>, maxCost: real)
    requires nRows == costMatrix.Length0 && nCols == costMatrix.Length1 && n == Max(nRows, nCols)
    ensures fresh(cost) && cost.Length0 == n && cost.Length1 == n
    ensures IsLargestCost(costMatrix, maxCost) && maxCost == LargestCost(costMatrix)
    ensures forall i, j :: 0 <= i < nRows && 0 <= j < nCols ==> cost[i, j] == costMatrix[i, j]
    ensures forall i, j :: 0 <= i < n && 0 <= j < n && (nRows <= i || nCols <= j) ==>
              cost[i, j] == maxCost * PadMultiplier + PadOffset
  {
    cost := new real[n, n];
    maxCost := -MaxFloat;
    for i := 0 to nRows
      invariant -MaxFloat <= maxCost
      invariant forall i', j :: 0 <= i' < i && 0 <= j < nCols ==>
                  cost[i', j] == costMatrix[i', j] && costMatrix[i', j] <= maxCost
      invariant maxCost == -MaxFloat ||
                exists i', j :: 0 <= i' < i && 0 <= j < nCols && costMatrix[i', j] == maxCost
    {
      for j := 0 to nCols
        invariant -MaxFloat <= maxCost
        invariant forall i', j' :: 0 <= i' < i && 0 <= j' < nCols ==>
                    cost[i', j'] == costMatrix[i', j'] && costMatrix[i', j'] <= maxCost
        invariant forall j' :: 0 <= j' < j ==> cost[i, j'] == costMatrix[i, j'] && costMatrix[i, j'] <= maxCost
        invariant maxCost == -MaxFloat ||
                  (exists i', j' :: 0 <= i' < i && 0 <= j' < nCols && costMatrix[i', j'] == maxCost) ||
                  (exists j' :: 0 <= j' < j && costMatrix[i, j'] == maxCost)
      {
        var val := costMatrix[i, j];
        cost[i, j] := val;
        if val > maxCost {
          maxCost := val;
        }
      }
    }
    LargestCostUnique(costMatrix, maxCost, LargestCost(costMatrix));
    var bigM := maxCost * PadMultiplier + PadOffset;
    for i := nRows to n
      invariant forall i', j :: 0 <= i' < nRows && 0 <= j < nCols ==> cost[i', j] == costMatrix[i', j]
      invariant forall i', j :: nRows <= i' < i && 0 <= j < n ==> cost[i', j] == bigM
    {
      for j := 0 to n
        invariant forall i', j' :: 0 <= i' < nRows && 0 <= j' < nCols ==> cost[i', j'] == costMatrix[i', j']
        invariant forall i', j' :: nRows <= i' < i && 0 <= j' < n ==> cost[i', j'] == bigM
        invariant forall j' :: 0 <= j' < j ==> cost[i, j'] == bigM
      {
        cost[i, j] := bigM;
      }
    }
    for i := 0 to n
      invariant forall i', j :: 0 <= i' < nRows && 0 <= j < nCols ==> cost[i', j] == costMatrix[i', j]
      invariant forall i', j :: nRows <= i' < n && 0 <= j < n ==> cost[i', j] == bigM
      invariant forall i', j :: 0 <= i' < i && nCols <= j < n ==> cost[i', j] == bigM
    {
      for j := nCols to n
        invariant forall i', j' :: 0 <= i' < nRows && 0 <= j' < nCols ==> cost[i', j'] == costMatrix[i', j']
        invariant forall i', j' :: nRows <= i' < n && 0 <= j' < n ==> cost[i', j'] == bigM
        invariant forall i', j' :: 0 <= i' < i && nCols <= j' < n ==> cost[i', j'] == bigM
        invariant forall j' :: nCols <= j' < j ==> cost[i, j'] == bigM
      {
        cost[i, j] := bigM;
      }
    }
  }

  method CreateInitializedArray(length: nat, value: int) returns (a: array<int>)
    ensures fresh(a) && a.Length == length
    ensures forall i :: 0 <= i < length ==> a[i] == value
  {
    a := new int[length];
    for i := 0 to length
      invariant forall k :: 0 <= k < i ==> a[k] == value
    {
      a[i] := value;
    }
  }

  /** Row i of the first n columns holds a zero. */
  ghost predicate ZeroInRow(cost: array2<real>, i: int, n: int)
    reads cost
    requires 0 <= i < cost.Length0 && n <= cost.Length1
  {
    exists j :: 0 <= j < n && cost[i, j] == 0.0
  }

  /** Column j of the first n rows holds a zero. */
  ghost predicate ZeroInColumn(cost: array2<real>, j: int, n: int)
    reads cost
    requires 0 <= j < cost.Length1 && n <= cost.Length0
  {
    exists i :: 0 <= i < n && cost[i, j] == 0.0
  }

  /**
   * Subtracts from every row its minimum (a scan seeded with float.MaxValue)
   * and records that minimum in u.
   */
  method ReduceRows(cost: array2<real>, u: array<real>, n: int)
    requires cost.Length0 == n && cost.Length1 == n && u.Length == n
    modifies cost, u
    ensures forall i :: 0 <= i < n ==>
              u[i] <= MaxFloat && (u[i] == MaxFloat || exists j :: 0 <= j < n && old(cost[i, j]) == u[i])
    ensures forall i, j :: 0 <= i < n && 0 <= j < n ==>
              u[i] <= old(cost[i, j]) && cost[i, j] == old(cost[i, j]) - u[i]
    ensures forall i, j :: 0 <= i < n && 0 <= j < n ==> cost[i, j] >= 0.0
    ensures forall i, j :: 0 <= i < n && 0 <= j < n && old(cost[i, j]) <= MaxFloat ==>
              ZeroInRow(cost, i, n)
  {
    for i := 0 to n
      invariant forall i' :: 0 <= i' < i ==>
                  u[i'] <= MaxFloat && (u[i'] == MaxFloat || exists j :: 0 <= j < n && old(cost[i', j]) == u[i'])
      invariant forall i', j :: 0 <= i' < i && 0 <= j < n ==>
                  u[i'] <= old(cost[i', j]) && cost[i', j] == old(cost[i', j]) - u[i']
      invariant forall i', j :: i <= i' < n && 0 <= j < n ==> cost[i', j] == old(cost[i', j])
    {
      var minVal := MaxFloat;
      for j := 0 to n
        modifies {}
        invariant minVal <= MaxFloat
        invariant forall j' :: 0 <= j' < j ==> minVal <= cost[i, j']
        invariant minVal == MaxFloat || exists j' :: 0 <= j' < j && cost[i, j'] == minVal
      {
        minVal := MinReal(minVal, cost[i, j]);
      }
      u[i] := minVal;
      for j := 0 to n
        modifies cost
        invariant forall i', j' :: 0 <= i' < i && 0 <= j' < n ==>
                    u[i'] <= old(cost[i', j']) && cost[i', j'] == old(cost[i', j']) - u[i']
        invariant forall i', j' :: i < i' < n && 0 <= j' < n ==> cost[i', j'] == old(cost[i', j'])
        invariant forall j' :: 0 <= j' < j ==> cost[i, j'] == old(cost[i, j']) - minVal
        invariant forall j' :: j <= j' < n ==> cost[i, j'] == old(cost[i, j'])
      {
        cost[i, j] := cost[i, j] - minVal;
      }
    }
  }

  /** The column counterpart of ReduceRows, recording the minima in v. */
  method ReduceColumns(cost: array2<real>, v: array<real>, n: int)
    requires cost.Length0 == n && cost.Length1 == n && v.Length == n
    modifies cost, v
    ensures forall j :: 0 <= j < n ==>
              v[j] <= MaxFloat && (v[j] == MaxFloat || exists i :: 0 <= i < n && old(cost[i, j]) == v[j])
    ensures forall i, j :: 0 <= i < n && 0 <= j < n ==>
              v[j] <= old(cost[i, j]) && cost[i, j] == old(cost[i, j]) - v[j]
    ensures forall i, j :: 0 <= i < n && 0 <= j < n ==> cost[i, j] >= 0.0
    ensures forall i, j :: 0 <= i < n && 0 <= j < n && old(cost[i, j]) <= MaxFloat ==>
              ZeroInColumn(cost, j, n)
  {
    for j := 0 to n
      invariant forall j' :: 0 <= j' < j ==>
                  v[j'] <= MaxFloat && (v[j'] == MaxFloat || exists i :: 0 <= i < n && old(cost[i, j']) == v[j'])
      invariant forall i, j' :: 0 <= i < n && 0 <= j' < j ==>
                  v[j'] <= old(cost[i, j']) && cost[i, j'] == old(cost[i, j']) - v[j']
      invariant forall i, j' :: 0 <= i < n && j <= j' < n ==> cost[i, j'] == old(cost[i, j'])
    {
      var minVal := MaxFloat;
      for i := 0 to n
        modifies {}
        invariant minVal <= MaxFloat
        invariant forall i' :: 0 <= i' < i ==> minVal <= cost[i', j]
        invariant minVal == MaxFloat || exists i' :: 0 <= i' < i && cost[i', j] == minVal
      {
        minVal := MinReal(minVal, cost[i, j]);
      }
      v[j] := minVal;
      for i := 0 to n
        modifies cost
        invariant forall i', j' :: 0 <= i' < n && 0 <= j' < j ==>
                    v[j'] <= old(cost[i', j']) && cost[i', j'] == old(cost[i', j']) - v[j']
        invariant forall i', j' :: 0 <= i' < n && j < j' < n ==> cost[i', j'] == old(cost[i', j'])
        invariant forall i' :: 0 <= i' < i ==> cost[i', j] == old(cost[i', j]) - minVal
        invariant forall i' :: i <= i' < n ==> cost[i', j] == old(cost[i', j])
      {
        cost[i, j] := cost[i, j] - minVal;
      }
    }
  }

  /**
   * Gives each row, in order, the first still-free column whose reduced cost
   * is zero within epsilon.
   */
  method InitialAssignment(cost: array2<real>, rowsol: array<int>, colsol: array<int>, epsilon: real, n: int)
    requires cost.Length0 == n && cost.Length1 == n && rowsol.Length == n && colsol.Length == n
    requires rowsol != colsol
    requires forall i :: 0 <= i < n ==> rowsol[i] == -1 && colsol[i] == -1
    modifies rowsol, colsol
    ensures Matching(rowsol[..], colsol[..], n)
    ensures forall i :: 0 <= i < n && rowsol[i] != -1 ==> AbsReal(cost[i, rowsol[i]]) < epsilon
    ensures forall i, j :: 0 <= i < n && 0 <= j < n && AbsReal(cost[i, j]) < epsilon && (rowsol[i] == -1 || j < rowsol[i])
              ==> 0 <= colsol[j] < i
  {
    for i := 0 to n
      invariant Matching(rowsol[..], colsol[..], n)
      invariant forall i' :: i <= i' < n ==> rowsol[i'] == -1
      invariant forall j :: 0 <= j < n && colsol[j] != -1 ==> colsol[j] < i
      invariant forall i' :: 0 <= i' < i && rowsol[i'] != -1 ==> AbsReal(cost[i', rowsol[i']]) < epsilon
      invariant forall i', j :: 0 <= i' < i && 0 <= j < n && AbsReal(cost[i', j]) < epsilon && (rowsol[i'] == -1 || j < rowsol[i'])
                  ==> 0 <= colsol[j] < i'
    {
      ghost var rowsBefore, colsBefore := rowsol[..], colsol[..];
      for j := 0 to n
        modifies rowsol, colsol
        invariant rowsol[..] == rowsBefore && colsol[..] == colsBefore
        invariant forall j' :: 0 <= j' < j && AbsReal(cost[i, j']) < epsilon ==> colsol[j'] != -1
      {
        if colsol[j] == -1 && AbsReal(cost[i, j]) < epsilon {
          rowsol[i] := j;
          colsol[j] := i;
          break;
        }
      }
    }
  }

  /**
   * The shortest-path tree of one search: every predecessor other than the
   * free row is a row whose column was visited, and visited earlier than the
   * column it leads to when that column is visited too.
   */
  ghost predicate SearchTree(pred: seq<int>, seen: seq<bool>, rowsol: seq<int>, rank: seq<nat>,
                             freeRow: int, n: int)
  {
    |pred| == n && |seen| == n && |rowsol| == n && |rank| == n &&
    (forall k :: 0 <= k < n ==> 0 <= pred[k] < n) &&
    (forall k :: 0 <= k < n && pred[k] != freeRow ==>
       0 <= rowsol[pred[k]] < n && seen[rowsol[pred[k]]] && (seen[k] ==> rank[rowsol[pred[k]]] < rank[k]))
  }

  /** Visiting column j as the count-th column keeps the tree: every earlier visit ranks lower. */
  lemma TreeVisit(pred: seq<int>, seen: seq<bool>, rowsol: seq<int>, rank: seq<nat>, freeRow: int, n: int,
                  j: int, count: nat)
    requires SearchTree(pred, seen, rowsol, rank, freeRow, n) && 0 <= j < n && !seen[j]
    requires forall k :: 0 <= k < n && seen[k] ==> rank[k] < count
    ensures SearchTree(pred, seen[j := true], rowsol, rank[j := count], freeRow, n)
  {
    var seen', rank' := seen[j := true], rank[j := count];
    forall k | 0 <= k < n && pred[k] != freeRow
      ensures 0 <= rowsol[pred[k]] < n && seen'[rowsol[pred[k]]] && (seen'[k] ==> rank'[rowsol[pred[k]]] < rank'[k])
    {
      var c := rowsol[pred[k]];
      assert c != j && rank'[c] == rank[c];
    }
  }

  /**
   * Re-pointing unvisited columns at row i, which holds the visited column
   * j, keeps the tree.
   */
  lemma TreeRelax(pred: seq<int>, pred': seq<int>, seen: seq<bool>, rowsol: seq<int>, rank: seq<nat>,
                  freeRow: int, n: int, i: int, j: int)
    requires SearchTree(pred, seen, rowsol, rank, freeRow, n) && 0 <= i < n && 0 <= j < n
    requires rowsol[i] == j && seen[j] && |pred'| == n
    requires forall k :: 0 <= k < n ==> pred'[k] == pred[k] || (pred'[k] == i && !seen[k])
    ensures SearchTree(pred', seen, rowsol, rank, freeRow, n)
  {
  }

  /**
   * The corrected augmentation: one shortest augmenting path search per free
   * row over the unreduced cost. The duals stay feasible and every assigned
   * pair tight within epsilon, so a complete assignment is, by weak duality,
   * within n * epsilon of the least total cost. False when a search finds no
   * reachable column (the library throws).
   */
  method Augment(cost: array2<real>, u: array<real>, v: array<real>, rowsol: array<int>, colsol: array<int>,
                 n: int, epsilon: real, ghost bound: real) returns (ok: bool)
    requires cost.Length0 == n && cost.Length1 == n && u.Length == n && v.Length == n
    requires rowsol != colsol && u != v && 0.0 < epsilon
    requires Matching(rowsol[..], colsol[..], n) && NearTight(Entries(cost), u[..], v[..], rowsol[..], n, epsilon)
    modifies u, v, rowsol, colsol
    ensures Matching(rowsol[..], colsol[..], n) && NearTight(Entries(cost), u[..], v[..], rowsol[..], n, epsilon)
    ensures ok ==> IsPermutation(rowsol[..], n)
    ensures ok ==> forall p :: IsPermutation(p, n) ==>
              Cost(Entries(cost), rowsol[..], n) <= Cost(Entries(cost), p, n) + n as real * epsilon
    ensures StartWithin(Entries(cost), old(u[..]), old(v[..]), n, bound) ==> ok
  {
    ghost var good := StartWithin(Entries(cost), u[..], v[..], n, bound);
    var dist := new real[n];
    var pred := new int[n];
    var seen := new bool[n];
    for freeRow := 0 to n
      invariant Matching(rowsol[..], colsol[..], n) && NearTight(Entries(cost), u[..], v[..], rowsol[..], n, epsilon)
      invariant forall i :: 0 <= i < freeRow ==> rowsol[i] != -1
      invariant good ==> RoundWithin(Entries(cost), u[..], v[..], colsol[..], n, bound, freeRow)
    {
      if rowsol[freeRow] != -1 {
        if good {
          DualsKeep(Entries(cost), u[..], v[..], colsol[..], n, bound, freeRow);
        }
        continue;
      }
      ghost var u0, v0, c0 := u[..], v[..], colsol[..];
      var found, last := AugmentRow(cost, u, v, rowsol, colsol, dist, pred, seen, freeRow, n, epsilon);
      if !found {
        FailedOutOfBounds(Entries(cost), u0, v0, c0, n, bound, freeRow, freeRow);
        return false;
      }
      if good {
        DualsStep(Entries(cost), u0, v0, u[..], v[..], c0, colsol[..], n, bound, freeRow, freeRow, last);
      }
    }
    MatchedIsPermutation(rowsol[..], colsol[..], n);
    NearOptimal(Entries(cost), u[..], v[..], rowsol[..], n, epsilon);
    ok := true;
  }

  /** Every entry of the n x n matrix c lies within bound of zero. */
  ghost predicate EntriesWithin(c: seq<seq<real>>, n: int, bound: real)
  {
    Square(c, n) && forall i, j :: 0 <= i < n && 0 <= j < n ==> -bound <= c[i][j] <= bound
  }

  /**
   * Augment's start over costs within bound, where 2 * n * bound is below
   * float.MaxValue: no row dual below -bound and no column dual below zero.
   */
  ghost predicate StartWithin(c: seq<seq<real>>, u: seq<real>, v: seq<real>, n: int, bound: real)
  {
    EntriesWithin(c, n, bound) && 2.0 * (n as real) * bound < MaxFloat && |u| == n && |v| == n &&
    (forall i :: 0 <= i < n ==> -bound <= u[i]) && (forall j :: 0 <= j < n ==> 0.0 <= v[j])
  }

  /** Augment's bounds before round m, on costs within bound. */
  ghost predicate RoundWithin(c: seq<seq<real>>, u: seq<real>, v: seq<real>, colsol: seq<int>, n: int,
                              bound: real, m: nat)
  {
    EntriesWithin(c, n, bound) && 2.0 * (n as real) * bound < MaxFloat && DualsWithin(u, v, colsol, n, bound, m)
  }

  /**
   * The duals after m rounds of Augment over costs within bound: no row dual
   * below -bound, no free column's dual below zero, and no column dual below
   * -2 * bound * m (each round lowers a column by at most 2 * bound).
   */
  ghost predicate DualsWithin(u: seq<real>, v: seq<real>, colsol: seq<int>, n: int, bound: real, m: nat)
  {
    |u| == n && |v| == n && |colsol| == n &&
    (forall i :: 0 <= i < n ==> -bound <= u[i]) &&
    (forall j :: 0 <= j < n && colsol[j] == -1 ==> 0.0 <= v[j]) &&
    (forall j :: 0 <= j < n ==> -Drop(bound, m) <= v[j])
  }

  /** How far m rounds may lower a column dual: 2 * bound per round. */
  function Drop(bound: real, m: nat): real
  {
    2.0 * bound * (m as real)
  }

  /** One more round adds 2 * bound. */
  lemma DropStep(bound: real, m: nat)
    ensures Drop(bound, m + 1) == Drop(bound, m) + 2.0 * bound
  {
  }

  /** Fewer rounds lower a column no further. */
  lemma DropMonotone(bound: real, m: nat, m': nat)
    requires 0.0 <= bound && m <= m'
    ensures Drop(bound, m) <= Drop(bound, m')
  {
    NonNegativeProduct(2.0 * bound, (m' - m) as real);
  }

  /** A round that augments nothing keeps the bounds of the next round. */
  lemma DualsKeep(c: seq<seq<real>>, u: seq<real>, v: seq<real>, colsol: seq<int>, n: int, bound: real, m: nat)
    requires RoundWithin(c, u, v, colsol, n, bound, m) && 0 < n
    ensures RoundWithin(c, u, v, colsol, n, bound, m + 1)
  {
    assert -bound <= c[0][0] <= bound;
    DropMonotone(bound, m, m + 1);
  }

  /**
   * A round that augments from row f to the free column last: the path
   * length is at most bound - (-bound) - 0, so no column falls by more than
   * 2 * bound.
   */
  lemma DualsStep(c: seq<seq<real>>, u: seq<real>, v: seq<real>, u': seq<real>, v': seq<real>,
                  colsol: seq<int>, colsol': seq<int>, n: int, bound: real, m: nat, f: int, last: int)
    requires RoundWithin(c, u, v, colsol, n, bound, m) && DualsMoved(c, u, v, colsol, u', v', colsol', f, last, n)
    ensures RoundWithin(c, u', v', colsol', n, bound, m + 1)
  {
    assert Reduced(c, u, v, f, last) <= 2.0 * bound;
    DropStep(bound, m);
  }

  /** A search that failed on a column at float.MaxValue or beyond ran outside those bounds. */
  lemma FailedOutOfBounds(c: seq<seq<real>>, u: seq<real>, v: seq<real>, colsol: seq<int>, n: int, bound: real,
                          m: nat, f: int)
    requires Square(c, n) && |u| == n && |v| == n && 0 <= f < n
    requires exists k :: 0 <= k < n && MaxFloat <= Reduced(c, u, v, f, k)
    ensures m < n ==> !RoundWithin(c, u, v, colsol, n, bound, m)
  {
    var k :| 0 <= k < n && MaxFloat <= Reduced(c, u, v, f, k);
    ReachWithin(c, u, v, colsol, n, bound, m, f, k);
  }

  /** Within those bounds, before round m < n, every column is nearer the free row than float.MaxValue. */
  lemma ReachWithin(c: seq<seq<real>>, u: seq<real>, v: seq<real>, colsol: seq<int>, n: int, bound: real,
                    m: nat, f: int, k: int)
    requires Square(c, n) && |u| == n && |v| == n && 0 <= f < n && 0 <= k < n
    ensures RoundWithin(c, u, v, colsol, n, bound, m) && m < n ==> Reduced(c, u, v, f, k) < MaxFloat
  {
    if RoundWithin(c, u, v, colsol, n, bound, m) && m < n {
      assert -bound <= c[0][0] <= bound;
      DropStep(bound, m);
      DropMonotone(bound, m + 1, n);
      assert Drop(bound, n) == 2.0 * (n as real) * bound;
    }
  }

  lemma NonNegativeProduct(x: real, y: real)
    requires 0.0 <= x && 0.0 <= y
    ensures 0.0 <= x * y
  {
  }

  /** A matching that leaves no row unassigned is a permutation. */
  lemma MatchedIsPermutation(rowsol: seq<int>, colsol: seq<int>, n: int)
    requires Matching(rowsol, colsol, n) && forall i :: 0 <= i < n ==> rowsol[i] != -1
    ensures IsPermutation(rowsol, n)
  {
    forall i, i' | 0 <= i < i' < n
      ensures rowsol[i] != rowsol[i']
    {
      assert colsol[rowsol[i]] == i && colsol[rowsol[i']] == i';
    }
  }

  /**
   * One pass of Augment's loop: the same search and flip as
   * AugmentRowAsWritten, with the textbook dual update: every row on the
   * search tree rises and every visited column falls by how far it lies
   * short of the path length. Feasibility and the tightness of every
   * assigned pair are kept.
   */
  method AugmentRow(cost: array2<real>, u: array<real>, v: array<real>, rowsol: array<int>, colsol: array<int>,
                    dist: array<real>, pred: array<int>, seen: array<bool>, freeRow: int, n: int, epsilon: real)
    returns (found: bool, ghost last: int)
    requires cost.Length0 == n && cost.Length1 == n && u.Length == n && v.Length == n
    requires dist.Length == n && pred.Length == n && seen.Length == n && dist != u && dist != v
    requires rowsol != colsol && u != v && pred != rowsol && pred != colsol && 0.0 < epsilon
    requires Matching(rowsol[..], colsol[..], n) && 0 <= freeRow < n && rowsol[freeRow] == -1
    requires NearTight(Entries(cost), u[..], v[..], rowsol[..], n, epsilon)
    modifies u, v, rowsol, colsol, dist, pred, seen
    ensures Matching(rowsol[..], colsol[..], n) && NearTight(Entries(cost), u[..], v[..], rowsol[..], n, epsilon)
    ensures found ==> forall i :: 0 <= i < n ==> (old(rowsol[i]) != -1 || i == freeRow) ==> rowsol[i] != -1
    ensures found ==> DualsMoved(Entries(cost), old(u[..]), old(v[..]), old(colsol[..]), u[..], v[..], colsol[..],
                                 freeRow, last, n)
    ensures !found ==> exists k :: 0 <= k < n && MaxFloat <= Reduced(Entries(cost), old(u[..]), old(v[..]), freeRow, k)
  {
    var j0, rank := ShortestPath(cost, u, v, rowsol, colsol, dist, pred, seen, freeRow, n);
    if j0 == -1 {
      return false, -1;
    }
    last := j0;
    UpdateDualsAndFlip(cost, u, v, rowsol, colsol, dist, pred, seen, freeRow, j0, n, epsilon, rank);
    found := true;
  }

  /**
   * The corrected counterpart of UpdateDualsAndAugment, after a search from
   * freeRow that ended at the free column j0: the textbook dual update
   * (UpdateDuals), then the flip along the path. The duals stay feasible,
   * every assigned pair tight within epsilon, every matched row stays
   * matched and the free row is matched; the duals move as DualsMoved says.
   */
  method UpdateDualsAndFlip(cost: array2<real>, u: array<real>, v: array<real>, rowsol: array<int>, colsol: array<int>,
                            dist: array<real>, pred: array<int>, seen: array<bool>, freeRow: int, j0: int, n: int,
                            epsilon: real, ghost rank: seq<nat>)
    requires cost.Length0 == n && cost.Length1 == n && u.Length == n && v.Length == n
    requires dist.Length == n && pred.Length == n && seen.Length == n && dist != u && dist != v
    requires rowsol != colsol && u != v && pred != rowsol && pred != colsol && 0.0 < epsilon
    requires Matching(rowsol[..], colsol[..], n) && 0 <= freeRow < n && rowsol[freeRow] == -1
    requires NearTight(Entries(cost), u[..], v[..], rowsol[..], n, epsilon)
    requires 0 <= j0 < n && seen[j0] && colsol[j0] == -1
    requires SearchTree(pred[..], seen[..], rowsol[..], rank, freeRow, n)
    requires Distances(Entries(cost), u[..], v[..], dist[..], pred[..], seen[..], rowsol[..], colsol[..], freeRow, n)
    requires forall k :: 0 <= k < n && seen[k] ==> dist[k] <= dist[j0]
    requires forall k :: 0 <= k < n && seen[k] && k != j0 ==> colsol[k] != -1
    modifies u, v, rowsol, colsol
    ensures Matching(rowsol[..], colsol[..], n) && NearTight(Entries(cost), u[..], v[..], rowsol[..], n, epsilon)
    ensures forall i :: 0 <= i < n ==> (old(rowsol[i]) != -1 || i == freeRow) ==> rowsol[i] != -1
    ensures DualsMoved(Entries(cost), old(u[..]), old(v[..]), old(colsol[..]), u[..], v[..], colsol[..],
                       freeRow, j0, n)
  {
    ghost var u0, v0, r0, c0, cm := u[..], v[..], rowsol[..], colsol[..], Entries(cost);
    ghost var d, pr, sn := dist[..], pred[..], seen[..];
    UpdateDuals(dist, seen, u, v, rowsol, colsol, freeRow, j0, n);
    assert dist[..] == d && seen[..] == sn && rowsol[..] == r0;
    ghost var u1, v1 := u[..], v[..];
    FlipPath(rowsol, colsol, pred, seen, freeRow, j0, n, rank);
    assert pred[..] == pr && seen[..] == sn && u[..] == u1 && v[..] == v1 && Entries(cost) == cm;
    UpdatedFeasible(cm, u0, v0, u1, v1, d, pr, sn, r0, c0, freeRow, j0, n);
    UpdatedSlack(cm, u0, v0, u1, v1, d, pr, sn, rank, r0, c0, rowsol[..], freeRow, j0, n, epsilon);
    UpdateMoves(cm, u0, v0, u1, v1, d, pr, sn, r0, c0, rowsol[..], colsol[..], freeRow, j0, n);
    FlipKeepsMatched(rowsol[..], colsol[..], r0, c0, freeRow, j0, n);
  }

  /**
   * How an augmentation from row f to the free column last moved the duals:
   * no row dual fell, a column still free kept its dual, and no column dual
   * fell by more than the direct reduced cost from f to last.
   */
  ghost predicate DualsMoved(c: seq<seq<real>>, u: seq<real>, v: seq<real>, colsol: seq<int>,
                             u': seq<real>, v': seq<real>, colsol': seq<int>, f: int, last: int, n: int)
  {
    Square(c, n) && |u| == n && |v| == n && |colsol| == n && |u'| == n && |v'| == n && |colsol'| == n &&
    0 <= f < n && 0 <= last < n && colsol[last] == -1 &&
    (forall i :: 0 <= i < n ==> u[i] <= u'[i]) &&
    (forall j :: 0 <= j < n && colsol'[j] == -1 ==> colsol[j] == -1 && v'[j] == v[j]) &&
    (forall j :: 0 <= j < n ==> v[j] - Reduced(c, u, v, f, last) <= v'[j])
  }

  /**
   * The dual update and flip move the duals as DualsMoved says: the path
   * length is at most the direct reduced cost to j0, every distance is
   * non-negative, and a column free after the flip was free and unvisited.
   */
  lemma UpdateMoves(c: seq<seq<real>>, u: seq<real>, v: seq<real>, u': seq<real>, v': seq<real>,
                    dist: seq<real>, pred: seq<int>, seen: seq<bool>, rowsol: seq<int>, colsol: seq<int>,
                    rowsol': seq<int>, colsol': seq<int>, f: int, j0: int, n: int)
    requires Distances(c, u, v, dist, pred, seen, rowsol, colsol, f, n) && 0 <= j0 < n && seen[j0] && colsol[j0] == -1
    requires forall k :: 0 <= k < n && seen[k] ==> dist[k] <= dist[j0]
    requires forall k :: 0 <= k < n && seen[k] && k != j0 ==> colsol[k] != -1
    requires |u'| == n && |v'| == n
    requires forall j :: 0 <= j < n ==> v'[j] == v[j] - ColumnDrop(dist, seen, j0, j)
    requires forall i :: 0 <= i < n ==> u'[i] == u[i] + RowRaise(dist, rowsol, seen, f, j0, i)
    requires FlipDone(rowsol', colsol', rowsol, colsol, f, j0, n)
    ensures DualsMoved(c, u, v, colsol, u', v', colsol', f, j0, n)
  {
    forall j | 0 <= j < n
      ensures v[j] - Reduced(c, u, v, f, j0) <= v'[j]
    {
      assert 0.0 <= dist[j] && dist[j0] <= Reduced(c, u, v, f, j0);
    }
  }

  /** How much the dual update raises row i: the path length less the row's distance, on the tree. */
  ghost function RowRaise(dist: seq<real>, rowsol: seq<int>, seen: seq<bool>, freeRow: int, j0: int, i: int): real
    requires |seen| == |dist| && 0 <= i < |rowsol| && 0 <= j0 < |dist|
  {
    if i == freeRow then dist[j0]
    else if 0 <= rowsol[i] < |seen| && seen[rowsol[i]] then dist[j0] - dist[rowsol[i]]
    else 0.0
  }

  /** How much the dual update lowers column j: the path length less its distance, when visited. */
  ghost function ColumnDrop(dist: seq<real>, seen: seq<bool>, j0: int, j: int): real
    requires |seen| == |dist| && 0 <= j < |dist| && 0 <= j0 < |dist|
  {
    if seen[j] then dist[j0] - dist[j] else 0.0
  }

  /**
   * The dual update for a path ending in j0: each visited column j falls by
   * dist[j0] - dist[j] and the row holding it rises by as much; the free
   * row rises by dist[j0].
   */
  method UpdateDuals(dist: array<real>, seen: array<bool>, u: array<real>, v: array<real>,
                     rowsol: array<int>, colsol: array<int>, freeRow: int, j0: int, n: int)
    requires dist.Length == n && seen.Length == n && u.Length == n && v.Length == n
    requires u != v && dist != u && dist != v && 0 <= freeRow < n && 0 <= j0 < n
    requires Matching(rowsol[..], colsol[..], n) && rowsol[freeRow] == -1
    modifies u, v
    ensures forall j :: 0 <= j < n ==> v[j] == old(v[j]) - ColumnDrop(dist[..], seen[..], j0, j)
    ensures forall i :: 0 <= i < n ==> u[i] == old(u[i]) + RowRaise(dist[..], rowsol[..], seen[..], freeRow, j0, i)
  {
    var delta := dist[j0];
    for j := 0 to n
      invariant forall k :: 0 <= k < n ==>
                  v[k] == old(v[k]) - (if k < j then ColumnDrop(dist[..], seen[..], j0, k) else 0.0)
      invariant forall i :: 0 <= i < n ==>
                  u[i] == old(u[i]) + (if i != freeRow && 0 <= rowsol[i] < j && seen[rowsol[i]]
                                       then delta - dist[rowsol[i]] else 0.0)
    {
      if seen[j] {
        v[j] := v[j] - (delta - dist[j]);
        var i := colsol[j];
        if i != -1 {
          u[i] := u[i] + (delta - dist[j]);
        }
      }
    }
    u[freeRow] := u[freeRow] + delta;
  }

  /**
   * The dual update keeps every reduced cost non-negative: a tree row's new
   * reduced cost to column k is at least its distance plus the old reduced
   * cost less dist[k], which the shortest-path distances make non-negative.
   */
  lemma UpdatedFeasible(c: seq<seq<real>>, u: seq<real>, v: seq<real>, u': seq<real>, v': seq<real>,
                        dist: seq<real>, pred: seq<int>, seen: seq<bool>, rowsol: seq<int>, colsol: seq<int>,
                        f: int, j0: int, n: int)
    requires DualFeasible(c, u, v, n) && Distances(c, u, v, dist, pred, seen, rowsol, colsol, f, n)
    requires Matching(rowsol, colsol, n) && rowsol[f] == -1 && 0 <= j0 < n && seen[j0]
    requires forall k :: 0 <= k < n && seen[k] ==> dist[k] <= dist[j0]
    requires |u'| == n && |v'| == n
    requires forall j :: 0 <= j < n ==> v'[j] == v[j] - ColumnDrop(dist, seen, j0, j)
    requires forall i :: 0 <= i < n ==> u'[i] == u[i] + RowRaise(dist, rowsol, seen, f, j0, i)
    ensures DualFeasible(c, u', v', n)
  {
    forall i, k | 0 <= i < n && 0 <= k < n
      ensures 0.0 <= Reduced(c, u', v', i, k)
    {
      assert Reduced(c, u', v', i, k) ==
             Reduced(c, u, v, i, k) - RowRaise(dist, rowsol, seen, f, j0, i) + ColumnDrop(dist, seen, j0, k);
      assert 0.0 <= Reduced(c, u, v, i, k);
      if !seen[k] {
        assert dist[j0] <= dist[k];
      }
      if i != f && 0 <= rowsol[i] < n && seen[rowsol[i]] {
        assert colsol[rowsol[i]] == i;
      }
    }
  }

  /**
   * The dual update leaves the pairs it does not flip as tight as before
   * (row and column move together) and makes the pairs on the path exactly
   * tight.
   */
  lemma UpdatedSlack(c: seq<seq<real>>, u: seq<real>, v: seq<real>, u': seq<real>, v': seq<real>,
                     dist: seq<real>, pred: seq<int>, seen: seq<bool>, rank: seq<nat>, rowsol: seq<int>,
                     colsol: seq<int>, rowsol': seq<int>, f: int, j0: int, n: int, eps: real)
    requires NearTight(c, u, v, rowsol, n, eps) && 0.0 < eps
    requires Distances(c, u, v, dist, pred, seen, rowsol, colsol, f, n)
    requires SearchTree(pred, seen, rowsol, rank, f, n)
    requires Matching(rowsol, colsol, n) && rowsol[f] == -1 && 0 <= j0 < n
    requires |u'| == n && |v'| == n
    requires forall j :: 0 <= j < n ==> v'[j] == v[j] - ColumnDrop(dist, seen, j0, j)
    requires forall i :: 0 <= i < n ==> u'[i] == u[i] + RowRaise(dist, rowsol, seen, f, j0, i)
    requires PathRows(rowsol', rowsol, pred, seen, n)
    ensures forall i :: 0 <= i < n && 0 <= rowsol'[i] < n ==> Reduced(c, u', v', i, rowsol'[i]) < eps
  {
    forall i | 0 <= i < n && 0 <= rowsol'[i] < n
      ensures Reduced(c, u', v', i, rowsol'[i]) < eps
    {
      var k := rowsol'[i];
      assert Reduced(c, u', v', i, k) ==
             Reduced(c, u, v, i, k) - RowRaise(dist, rowsol, seen, f, j0, i) + ColumnDrop(dist, seen, j0, k);
      if k != rowsol[i] {
        // k is on the path and reached through row i: its distance is i's level plus the reduced cost.
        assert seen[k] && pred[k] == i;
        assert dist[k] == Level(dist, rowsol, f, i) + Reduced(c, u, v, i, k);
      } else {
        assert Reduced(c, u, v, i, k) < eps;
      }
    }
  }

  /**
   * Runs one shortest augmenting path search per free row and flips the
   * assignment along it; false when a search finds no reachable column (the
   * library throws).
   */
  method AugmentAsWritten(cost: array2<real>, u: array<real>, v: array<real>, rowsol: array<int>, colsol: array<int>,
                          n: int, epsilon: real) returns (ok: bool)
    requires cost.Length0 == n && cost.Length1 == n && u.Length == n && v.Length == n
    requires rowsol != colsol && u != v
    requires Matching(rowsol[..], colsol[..], n)
    modifies u, v, rowsol, colsol
    ensures Matching(rowsol[..], colsol[..], n)
    ensures ok ==> forall i :: 0 <= i < n ==> rowsol[i] != -1
  {
    var dist := new real[n];
    var pred := new int[n];
    var seen := new bool[n];
    for freeRow := 0 to n
      invariant Matching(rowsol[..], colsol[..], n)
      invariant forall i :: 0 <= i < freeRow ==> rowsol[i] != -1
    {
      if rowsol[freeRow] != -1 {
        continue;
      }
      var found := AugmentRowAsWritten(cost, u, v, rowsol, colsol, dist, pred, seen, freeRow, n);
      if !found {
        return false;
      }
    }
    ok := true;
  }

  /**
   * One pass of AugmentAsWritten's loop for a free row: search a shortest
   * augmenting path, then update the duals and flip the assignment along
   * it. False when no column is reachable; otherwise every row matched
   * before stays matched and the free row is matched too. When the free
   * row's nearest column (by cost less both duals) is free, the row takes it.
   */
  method AugmentRowAsWritten(cost: array2<real>, u: array<real>, v: array<real>, rowsol: array<int>, colsol: array<int>,
                             dist: array<real>, pred: array<int>, seen: array<bool>, freeRow: int, n: int)
    returns (found: bool)
    requires cost.Length0 == n && cost.Length1 == n && u.Length == n && v.Length == n
    requires dist.Length == n && pred.Length == n && seen.Length == n && dist != u && dist != v
    requires rowsol != colsol && u != v && pred != rowsol && pred != colsol
    requires Matching(rowsol[..], colsol[..], n) && 0 <= freeRow < n && rowsol[freeRow] == -1
    modifies u, v, rowsol, colsol, dist, pred, seen
    ensures Matching(rowsol[..], colsol[..], n)
    ensures found ==> forall i :: 0 <= i < n ==> (old(rowsol[i]) != -1 || i == freeRow) ==> rowsol[i] != -1
    ensures forall k :: FirstNearest(Entries(cost), old(u[..]), old(v[..]), freeRow, n, k) && old(colsol[k]) == -1 ==>
              found && rowsol[..] == old(rowsol[..])[freeRow := k]
  {
    var j0, rank := ShortestPath(cost, u, v, rowsol, colsol, dist, pred, seen, freeRow, n);
    if j0 == -1 {
      return false;
    }
    ghost var r0, c0 := rowsol[..], colsol[..];
    UpdateDualsAndAugment(dist, seen, u, v, rowsol, colsol, pred, freeRow, j0, n, rank);
    FlipKeepsMatched(rowsol[..], colsol[..], r0, c0, freeRow, j0, n);
    found := true;
  }

  /**
   * The Dijkstra-like search from freeRow over reduced costs: visits columns
   * in order of distance until it reaches an unassigned one (j0), or returns
   * -1 when every unvisited column is at float.MaxValue or beyond.
   */
  method ShortestPath(cost: array2<real>, u: array<real>, v: array<real>, rowsol: array<int>, colsol: array<int>,
                      dist: array<real>, pred: array<int>, seen: array<bool>, freeRow: int, n: int)
    returns (j0: int, ghost rank: seq<nat>)
    requires cost.Length0 == n && cost.Length1 == n && u.Length == n && v.Length == n
    requires dist.Length == n && pred.Length == n && seen.Length == n && dist != u && dist != v
    requires pred != rowsol && pred != colsol
    requires Matching(rowsol[..], colsol[..], n) && 0 <= freeRow < n && rowsol[freeRow] == -1
    modifies dist, pred, seen
    ensures j0 == -1 || (0 <= j0 < n && seen[j0] && colsol[j0] == -1)
    ensures j0 != -1 ==> SearchTree(pred[..], seen[..], rowsol[..], rank, freeRow, n)
    ensures j0 != -1 && DualFeasible(Entries(cost), u[..], v[..], n) ==>
              Distances(Entries(cost), u[..], v[..], dist[..], pred[..], seen[..], rowsol[..], colsol[..], freeRow, n) &&
              forall k :: 0 <= k < n && seen[k] ==> dist[k] <= dist[j0]
    ensures forall k :: FirstNearest(Entries(cost), u[..], v[..], freeRow, n, k) && colsol[k] == -1 ==>
              j0 == k && pred[k] == freeRow
    ensures j0 != -1 ==> forall k :: 0 <= k < n && seen[k] && k != j0 ==> colsol[k] != -1
    ensures j0 == -1 && DualFeasible(Entries(cost), u[..], v[..], n) ==>
              exists k :: 0 <= k < n && MaxFloat <= Reduced(Entries(cost), u[..], v[..], freeRow, k)
  {
    ghost var rs, cs, us, vs, cm := rowsol[..], colsol[..], u[..], v[..], Entries(cost);
    StartSearch(cost, u, v, dist, pred, seen, freeRow, n);
    j0, rank := SearchColumns(cost, u, v, rowsol, colsol, dist, pred, seen, freeRow, n, rs, cs, us, vs, cm,
                              DualFeasible(cm, us, vs, n));
  }

  /**
   * ShortestPath's loop, from the starting distances, stated on snapshots
   * of the arrays it only reads: the matrix cm, the duals us and vs, and the
   * assignment rs and cs.
   */
  method SearchColumns(cost: array2<real>, u: array<real>, v: array<real>, rowsol: array<int>, colsol: array<int>,
                       dist: array<real>, pred: array<int>, seen: array<bool>, freeRow: int, n: int,
                       ghost rs: seq<int>, ghost cs: seq<int>, ghost us: seq<real>, ghost vs: seq<real>,
                       ghost cm: seq<seq<real>>, ghost feasible: bool)
    returns (j0: int, ghost rank: seq<nat>)
    requires cost.Length0 == n && cost.Length1 == n && u.Length == n && v.Length == n
    requires dist.Length == n && pred.Length == n && seen.Length == n && dist != u && dist != v
    requires pred != rowsol && pred != colsol
    requires rowsol[..] == rs && colsol[..] == cs && u[..] == us && v[..] == vs && cm == Entries(cost)
    requires Matching(rs, cs, n) && 0 <= freeRow < n && rs[freeRow] == -1
    requires feasible == DualFeasible(cm, us, vs, n)
    requires forall k :: 0 <= k < n ==> dist[k] == Reduced(cm, us, vs, freeRow, k) && pred[k] == freeRow && !seen[k]
    modifies dist, pred, seen
    ensures j0 == -1 ==> NoPath(cm, us, vs, cs, freeRow, n, feasible)
    ensures j0 != -1 ==> PathEnd(cm, us, vs, dist[..], pred[..], seen[..], rs, cs, rank, freeRow, n, feasible, j0)
  {
    rank := seq(n, _ => 0);
    ghost var count: nat := 0;
    StartSearching(cm, us, vs, dist[..], pred[..], seen[..], rs, cs, rank, freeRow, n, feasible);
    while true
      invariant Searching(cm, us, vs, dist[..], pred[..], seen[..], rs, cs, rank, count, freeRow, n, feasible)
      decreases Unseen(seen[..])
    {
      var j, minDist := FindMinUnseenColumn(dist, seen, n);
      if j == -1 {
        NoneReachable(cm, us, vs, dist[..], pred[..], seen[..], rs, cs, rank, count, freeRow, n, feasible);
        return -1, rank;
      }
      if colsol[j] == -1 {
        VisitFreeColumn(dist, pred, seen, freeRow, n, j, rs, cs, us, vs, cm, feasible, rank, count);
        return j, rank[j := count];
      }
      VisitShrinks(seen[..], j);
      VisitHeldColumn(cost, u, v, rowsol, colsol, dist, pred, seen, freeRow, n, j, rs, cs, us, vs, cm, feasible,
                      rank, count);
      rank := rank[j := count];
      count := count + 1;
    }
  }

  /**
   * The state of the search after count visits: the predecessors form a
   * search tree, every visited column is held, the distances have the
   * shortest-path facts under feasible duals, nothing has moved before the
   * first visit, and after it every first nearest column is held.
   */
  ghost predicate Searching(c: seq<seq<real>>, u: seq<real>, v: seq<real>, dist: seq<real>, pred: seq<int>,
                            seen: seq<bool>, rowsol: seq<int>, colsol: seq<int>, rank: seq<nat>, count: nat,
                            f: int, n: int, feasible: bool)
  {
    Square(c, n) && |u| == n && |v| == n && |dist| == n && 0 <= f < n &&
    SearchTree(pred, seen, rowsol, rank, f, n) && VisitedHeld(seen, colsol, rank, count) &&
    (feasible ==> Distances(c, u, v, dist, pred, seen, rowsol, colsol, f, n)) &&
    (count == 0 ==> forall k :: 0 <= k < n ==> dist[k] == Reduced(c, u, v, f, k) && pred[k] == f && !seen[k]) &&
    (count > 0 ==> forall k :: FirstNearest(c, u, v, f, n, k) ==> colsol[k] != -1)
  }

  /**
   * The search ended at the free column j: the search tree is complete, every
   * other visited column is held, under feasible duals the distances hold and
   * j lies no nearer than any visited column, and a free first nearest column
   * is j itself, reached from the free row.
   */
  ghost predicate PathEnd(c: seq<seq<real>>, u: seq<real>, v: seq<real>, dist: seq<real>, pred: seq<int>,
                          seen: seq<bool>, rowsol: seq<int>, colsol: seq<int>, rank: seq<nat>, f: int, n: int,
                          feasible: bool, j: int)
  {
    |dist| == n && |pred| == n && |seen| == n && |colsol| == n && 0 <= j < n && seen[j] && colsol[j] == -1 &&
    SearchTree(pred, seen, rowsol, rank, f, n) &&
    (forall k :: 0 <= k < n && seen[k] && k != j ==> colsol[k] != -1) &&
    (feasible ==> Distances(c, u, v, dist, pred, seen, rowsol, colsol, f, n) &&
                  forall k :: 0 <= k < n && seen[k] ==> dist[k] <= dist[j]) &&
    (forall k :: FirstNearest(c, u, v, f, n, k) && colsol[k] == -1 ==> j == k && pred[k] == f)
  }

  /**
   * The search found no path: under feasible duals some column lies at
   * float.MaxValue or beyond from the free row, and no first nearest column is free.
   */
  ghost predicate NoPath(c: seq<seq<real>>, u: seq<real>, v: seq<real>, colsol: seq<int>, f: int, n: int,
                         feasible: bool)
  {
    Square(c, n) && |u| == n && |v| == n && 0 <= f < n && |colsol| == n &&
    (feasible ==> exists k :: 0 <= k < n && MaxFloat <= Reduced(c, u, v, f, k)) &&
    (forall k :: FirstNearest(c, u, v, f, n, k) ==> colsol[k] != -1)
  }

  /** The search starts in that state, with every column at its reduced cost from the free row. */
  lemma StartSearching(c: seq<seq<real>>, u: seq<real>, v: seq<real>, dist: seq<real>, pred: seq<int>,
                       seen: seq<bool>, rowsol: seq<int>, colsol: seq<int>, rank: seq<nat>, f: int, n: int,
                       feasible: bool)
    requires Square(c, n) && |u| == n && |v| == n && 0 <= f < n
    requires |dist| == n && |pred| == n && |seen| == n && |rowsol| == n && |colsol| == n && rank == seq(n, _ => 0)
    requires feasible == DualFeasible(c, u, v, n)
    requires forall k :: 0 <= k < n ==> dist[k] == Reduced(c, u, v, f, k) && pred[k] == f && !seen[k]
    ensures Searching(c, u, v, dist, pred, seen, rowsol, colsol, rank, 0, f, n, feasible)
  {
    if feasible {
      StartDistances(c, u, v, dist, pred, seen, rowsol, colsol, f, n);
    }
  }

  /**
   * The search's last step: the nearest unvisited column j is free, and is
   * visited as the end of the path; it lies no nearer than any visited
   * column, every other visited column is held, and when j was the first
   * pick it is the first nearest column, reached from the free row.
   */
  method VisitFreeColumn(dist: array<real>, pred: array<int>, seen: array<bool>, freeRow: int, n: int, j: int,
                         ghost rs: seq<int>, ghost cs: seq<int>, ghost us: seq<real>, ghost vs: seq<real>,
                         ghost cm: seq<seq<real>>, ghost feasible: bool, ghost rank: seq<nat>, ghost count: nat)
    requires dist.Length == n && pred.Length == n && seen.Length == n && |cs| == n
    requires Searching(cm, us, vs, dist[..], pred[..], seen[..], rs, cs, rank, count, freeRow, n, feasible)
    requires Nearest(dist[..], seen[..], j) && cs[j] == -1
    modifies seen
    ensures seen[..] == old(seen[..])[j := true]
    ensures PathEnd(cm, us, vs, dist[..], pred[..], seen[..], rs, cs, rank[j := count], freeRow, n, feasible, j)
  {
    if count == 0 {
      NearestFound(cm, us, vs, dist[..], seen[..], freeRow, n, j);
    }
    TreeVisit(pred[..], seen[..], rs, rank, freeRow, n, j, count);
    ghost var seenBefore := seen[..];
    seen[j] := true;
    if feasible {
      MarkFreeKeepsDistances(cm, us, vs, dist[..], pred[..], seenBefore, seen[..], rs, cs, freeRow, n, j);
    }
  }

  /**
   * One step of the search past a column j that row colsol[j] holds: j is
   * visited, and every unvisited column is offered the path through that row.
   */
  method VisitHeldColumn(cost: array2<real>, u: array<real>, v: array<real>, rowsol: array<int>, colsol: array<int>,
                         dist: array<real>, pred: array<int>, seen: array<bool>, freeRow: int, n: int, j: int,
                         ghost rs: seq<int>, ghost cs: seq<int>, ghost us: seq<real>, ghost vs: seq<real>,
                         ghost cm: seq<seq<real>>, ghost feasible: bool, ghost rank: seq<nat>, ghost count: nat)
    requires cost.Length0 == n && cost.Length1 == n && u.Length == n && v.Length == n
    requires dist.Length == n && pred.Length == n && seen.Length == n && dist != u && dist != v
    requires rowsol[..] == rs && colsol[..] == cs && Matching(rs, cs, n)
    requires cm == Entries(cost)
    requires u[..] == us && v[..] == vs && (feasible ==> DualFeasible(cm, us, vs, n))
    requires 0 <= j < n && !seen[j] && colsol[j] != -1
    requires Searching(cm, us, vs, dist[..], pred[..], seen[..], rs, cs, rank, count, freeRow, n, feasible)
    requires rs[freeRow] == -1
    requires Nearest(dist[..], seen[..], j)
    modifies dist, pred, seen
    ensures seen[..] == old(seen[..])[j := true]
    ensures Searching(cm, us, vs, dist[..], pred[..], seen[..], rs, cs, rank[j := count], count + 1, freeRow, n, feasible)
  {
    ghost var seenBefore, predBefore, distBefore := seen[..], pred[..], dist[..];
    seen[j] := true;
    var i := colsol[j];
    RelaxFrom(cost, u, v, dist, pred, seen, i, dist[j], n);
    HeldRelaxed(cost, u, v, cm, us, vs, distBefore, dist[..], predBefore, pred[..], seenBefore, seen[..],
                rs, cs, rank, count, freeRow, n, feasible, j);
  }

  /**
   * VisitHeldColumn's step, stated on values: marking the held nearest
   * column j visited and relaxing every unvisited column through the row
   * that holds j keeps the search state, with j ranked count-th.
   */
  lemma HeldRelaxed(cost: array2<real>, u: array<real>, v: array<real>, c: seq<seq<real>>, us: seq<real>,
                    vs: seq<real>, dist: seq<real>, dist': seq<real>, pred: seq<int>, pred': seq<int>,
                    seen: seq<bool>, seen': seq<bool>, rowsol: seq<int>, colsol: seq<int>, rank: seq<nat>,
                    count: nat, f: int, n: int, feasible: bool, j: int)
    requires cost.Length0 == n && cost.Length1 == n && u.Length == n && v.Length == n
    requires c == Entries(cost) && us == u[..] && vs == v[..]
    requires Searching(c, us, vs, dist, pred, seen, rowsol, colsol, rank, count, f, n, feasible)
    requires Nearest(dist, seen, j) && Matching(rowsol, colsol, n) && rowsol[f] == -1 && colsol[j] != -1
    requires feasible ==> DualFeasible(c, us, vs, n)
    requires seen' == seen[j := true] && |dist'| == n && |pred'| == n
    requires forall k :: 0 <= k < n && !seen'[k] && cost[colsol[j], k] - u[colsol[j]] - v[k] + dist[j] < dist[k] ==>
               dist'[k] == cost[colsol[j], k] - u[colsol[j]] - v[k] + dist[j] && pred'[k] == colsol[j]
    requires forall k :: 0 <= k < n && (seen'[k] || cost[colsol[j], k] - u[colsol[j]] - v[k] + dist[j] >= dist[k]) ==>
               dist'[k] == dist[k] && pred'[k] == pred[k]
    requires forall k :: 0 <= k < n ==> pred'[k] == pred[k] || (pred'[k] == colsol[j] && !seen'[k])
    ensures Searching(c, us, vs, dist', pred', seen', rowsol, colsol, rank[j := count], count + 1, f, n, feasible)
  {
    if count == 0 {
      NearestFound(c, us, vs, dist, seen, f, n, j);
    }
    TreeVisit(pred, seen, rowsol, rank, f, n, j, count);
    VisitHeld(seen, colsol, rank, count, j);
    var i := colsol[j];
    assert rowsol[i] == j;
    TreeRelax(pred, pred', seen', rowsol, rank[j := count], f, n, i, j);
    if feasible {
      assert forall k :: 0 <= k < n ==> Reduced(c, us, vs, i, k) == cost[i, k] - u[i] - v[k];
      RelaxKeepsDistances(c, us, vs, dist, dist', pred, pred', seen, seen', rank, rowsol, colsol, f, n, j);
    }
  }

  /**
   * A search that finds no column below float.MaxValue has a column that far
   * from the free row: some column is free, hence unvisited, and its
   * distance is at most its reduced cost. No first nearest column is free
   * then: before the first visit there is none, and after it they are held.
   */
  lemma NoneReachable(c: seq<seq<real>>, u: seq<real>, v: seq<real>, dist: seq<real>, pred: seq<int>,
                      seen: seq<bool>, rowsol: seq<int>, colsol: seq<int>, rank: seq<nat>, count: nat, f: int, n: int,
                      feasible: bool)
    requires Searching(c, u, v, dist, pred, seen, rowsol, colsol, rank, count, f, n, feasible)
    requires Matching(rowsol, colsol, n) && rowsol[f] == -1
    requires forall k :: 0 <= k < n && !seen[k] ==> dist[k] >= MaxFloat
    ensures NoPath(c, u, v, colsol, f, n, feasible)
  {
    if count == 0 {
      NearestFound(c, u, v, dist, seen, f, n, -1);
    }
    if feasible {
      var k := FreeColumn(rowsol, colsol, f, n);
      assert !seen[k];
    }
  }

  /** A matching that leaves row f free leaves some column free: n - 1 rows cannot hold n columns. */
  lemma FreeColumn(rowsol: seq<int>, colsol: seq<int>, f: int, n: int) returns (k: int)
    requires Matching(rowsol, colsol, n) && 0 <= f < n && rowsol[f] == -1
    ensures 0 <= k < n && colsol[k] == -1
  {
    if j :| 0 <= j < n && colsol[j] == -1 {
      k := j;
    } else {
      // Every column is held, and never by f: rename row n - 1 to f to fit them into n - 1 rows.
      var q := seq(n, j requires 0 <= j < n => if colsol[j] == n - 1 then f else colsol[j]);
      forall j | 0 <= j < n
        ensures 0 <= q[j] < n - 1
      {
        assert rowsol[colsol[j]] == j && colsol[j] != f;
      }
      forall j, j' | 0 <= j < j' < n
        ensures q[j] != q[j']
      {
        assert rowsol[colsol[j]] == j && rowsol[colsol[j']] == j';
      }
      InjectiveFits(q, n - 1);
      k := 0;
    }
  }

  /** j is FindMinUnseenColumn's pick: the first unvisited column of least distance, below float.MaxValue. */
  ghost predicate Nearest(dist: seq<real>, seen: seq<bool>, j: int)
  {
    |seen| == |dist| && 0 <= j < |dist| && !seen[j] && dist[j] < MaxFloat &&
    (forall k :: 0 <= k < |dist| && !seen[k] ==> dist[j] <= dist[k]) &&
    (forall k :: 0 <= k < j && !seen[k] ==> dist[j] < dist[k])
  }

  /** Every visited column is held by a row and was visited before the count-th visit. */
  ghost predicate VisitedHeld(seen: seq<bool>, colsol: seq<int>, rank: seq<nat>, count: nat)
  {
    |seen| == |colsol| == |rank| && forall k :: 0 <= k < |seen| && seen[k] ==> colsol[k] != -1 && rank[k] < count
  }

  /** Visiting a held column as the count-th keeps VisitedHeld. */
  lemma VisitHeld(seen: seq<bool>, colsol: seq<int>, rank: seq<nat>, count: nat, j: int)
    requires VisitedHeld(seen, colsol, rank, count) && 0 <= j < |seen| && colsol[j] != -1
    ensures VisitedHeld(seen[j := true], colsol, rank[j := count], count + 1)
  {
  }

  /** The distance at which the search reaches row i: 0 for the free row, else that of the column it holds. */
  ghost function Level(dist: seq<real>, rowsol: seq<int>, f: int, i: int): real
    requires 0 <= i < |rowsol|
  {
    if i != f && 0 <= rowsol[i] < |dist| then dist[rowsol[i]] else 0.0
  }

  /**
   * The shortest-path facts of a search from row f over reduced costs
   * (cost less both duals): every distance lies between 0 and the direct
   * reduced cost from f, no visited row offers a shorter way to any column,
   * visited columns lie no farther than unvisited ones, and each column's
   * distance is its predecessor row's level plus one reduced cost.
   */
  ghost predicate Distances(c: seq<seq<real>>, u: seq<real>, v: seq<real>, dist: seq<real>, pred: seq<int>,
                            seen: seq<bool>, rowsol: seq<int>, colsol: seq<int>, f: int, n: int)
  {
    Square(c, n) && |u| == n && |v| == n && |dist| == n && |pred| == n &&
    |seen| == n && |rowsol| == n && |colsol| == n && 0 <= f < n &&
    (forall k :: 0 <= k < n ==> 0.0 <= dist[k] <= Reduced(c, u, v, f, k)) &&
    (forall j, k :: 0 <= j < n && 0 <= k < n && seen[j] && 0 <= colsol[j] < n ==>
       dist[k] <= dist[j] + Reduced(c, u, v, colsol[j], k)) &&
    (forall j, k {:trigger seen[j], seen[k]} :: 0 <= j < n && 0 <= k < n && seen[j] && !seen[k] ==> dist[j] <= dist[k]) &&
    (forall k {:trigger pred[k]} :: 0 <= k < n && 0 <= pred[k] < n ==>
       dist[k] == Level(dist, rowsol, f, pred[k]) + Reduced(c, u, v, pred[k], k))
  }

  /**
   * Column k is the first column of least reduced cost from row f, and that
   * cost is below float.MaxValue: the search's first pick.
   */
  ghost predicate FirstNearest(c: seq<seq<real>>, u: seq<real>, v: seq<real>, f: int, n: int, k: int)
  {
    Square(c, n) && |u| == n && |v| == n && 0 <= f < n && 0 <= k < n &&
    Reduced(c, u, v, f, k) < MaxFloat &&
    (forall j :: 0 <= j < n ==> Reduced(c, u, v, f, k) <= Reduced(c, u, v, f, j)) &&
    (forall j :: 0 <= j < k ==> Reduced(c, u, v, f, k) < Reduced(c, u, v, f, j))
  }

  /** Under feasible duals, the search's starting state has the shortest-path facts. */
  lemma StartDistances(c: seq<seq<real>>, u: seq<real>, v: seq<real>, dist: seq<real>, pred: seq<int>,
                       seen: seq<bool>, rowsol: seq<int>, colsol: seq<int>, f: int, n: int)
    requires DualFeasible(c, u, v, n) && 0 <= f < n
    requires |dist| == n && |pred| == n && |seen| == n && |rowsol| == n && |colsol| == n
    requires forall k :: 0 <= k < n ==> dist[k] == Reduced(c, u, v, f, k) && pred[k] == f && !seen[k]
    ensures Distances(c, u, v, dist, pred, seen, rowsol, colsol, f, n)
  {
  }

  /** On the starting distances, the search's first pick is the first nearest column. */
  lemma NearestFound(c: seq<seq<real>>, u: seq<real>, v: seq<real>, dist: seq<real>, seen: seq<bool>,
                     f: int, n: int, j: int)
    requires Square(c, n) && |u| == n && |v| == n && 0 <= f < n
    requires |dist| == n && |seen| == n
    requires forall k :: 0 <= k < n ==> dist[k] == Reduced(c, u, v, f, k) && !seen[k]
    requires j == -1 ==> forall k :: 0 <= k < n && !seen[k] ==> dist[k] >= MaxFloat
    requires j != -1 ==> 0 <= j < n && (forall k :: 0 <= k < n && !seen[k] ==> dist[j] <= dist[k]) &&
                         (forall k :: 0 <= k < j && !seen[k] ==> dist[j] < dist[k])
    ensures forall k :: FirstNearest(c, u, v, f, n, k) ==> j == k
  {
    forall k | FirstNearest(c, u, v, f, n, k)
      ensures j == k
    {
      assert dist[k] < MaxFloat;
      assert j != -1;
      assert dist[k] <= dist[j] && dist[j] <= dist[k];
    }
  }

  /** Visiting a nearest unvisited column keeps the shortest-path facts, and it is the farthest visited. */
  lemma MarkFreeKeepsDistances(c: seq<seq<real>>, u: seq<real>, v: seq<real>, dist: seq<real>, pred: seq<int>,
                               seen: seq<bool>, seen': seq<bool>, rowsol: seq<int>, colsol: seq<int>,
                               f: int, n: int, j: int)
    requires Distances(c, u, v, dist, pred, seen, rowsol, colsol, f, n)
    requires 0 <= j < n && !seen[j] && colsol[j] == -1 && seen' == seen[j := true]
    requires forall k :: 0 <= k < n && !seen[k] ==> dist[j] <= dist[k]
    ensures Distances(c, u, v, dist, pred, seen', rowsol, colsol, f, n)
    ensures forall k :: 0 <= k < n && seen'[k] ==> dist[k] <= dist[j]
  {
  }

  /**
   * Visiting a nearest unvisited column j held by row colsol[j], and
   * relaxing every unvisited column through that row, keeps the
   * shortest-path facts.
   */
  lemma RelaxKeepsDistances(c: seq<seq<real>>, u: seq<real>, v: seq<real>, dist: seq<real>, dist': seq<real>,
                            pred: seq<int>, pred': seq<int>, seen: seq<bool>, seen': seq<bool>, rank: seq<nat>,
                            rowsol: seq<int>, colsol: seq<int>, f: int, n: int, j: int)
    requires DualFeasible(c, u, v, n) && Distances(c, u, v, dist, pred, seen, rowsol, colsol, f, n)
    requires SearchTree(pred, seen, rowsol, rank, f, n) && Matching(rowsol, colsol, n) && rowsol[f] == -1
    requires 0 <= j < n && !seen[j] && colsol[j] != -1 && seen' == seen[j := true]
    requires forall k :: 0 <= k < n && !seen[k] ==> dist[j] <= dist[k]
    requires |dist'| == n && |pred'| == n
    requires forall k :: 0 <= k < n && !seen'[k] && Reduced(c, u, v, colsol[j], k) + dist[j] < dist[k] ==>
               dist'[k] == Reduced(c, u, v, colsol[j], k) + dist[j] && pred'[k] == colsol[j]
    requires forall k :: 0 <= k < n && (seen'[k] || Reduced(c, u, v, colsol[j], k) + dist[j] >= dist[k]) ==>
               dist'[k] == dist[k] && pred'[k] == pred[k]
    ensures Distances(c, u, v, dist', pred', seen', rowsol, colsol, f, n)
  {
    var i := colsol[j];
    assert rowsol[i] == j && i != f;
    forall k | 0 <= k < n
      ensures 0.0 <= dist'[k] <= Reduced(c, u, v, f, k)
    {
      assert 0.0 <= Reduced(c, u, v, i, k);
    }
    forall j1, k | 0 <= j1 < n && 0 <= k < n && seen'[j1] && 0 <= colsol[j1] < n
      ensures dist'[k] <= dist'[j1] + Reduced(c, u, v, colsol[j1], k)
    {
      assert 0.0 <= Reduced(c, u, v, colsol[j1], k);
      if j1 == j && seen[k] {
        assert dist[k] <= dist[j];
      }
    }
    forall j1, k | 0 <= j1 < n && 0 <= k < n && seen'[j1] && !seen'[k]
      ensures dist'[j1] <= dist'[k]
    {
      assert dist[j1] <= dist[j] && dist[j] <= dist[k];
      assert 0.0 <= Reduced(c, u, v, i, k);
    }
    forall k | 0 <= k < n && 0 <= pred'[k] < n
      ensures dist'[k] == Level(dist', rowsol, f, pred'[k]) + Reduced(c, u, v, pred'[k], k)
    {
      if dist'[k] != dist[k] || pred'[k] != pred[k] {
        assert Level(dist', rowsol, f, i) == dist[j];
      } else if pred[k] != f {
        assert seen[rowsol[pred[k]]];
      }
    }
  }

  /** Every column starts at its reduced cost from freeRow, reached from freeRow, unvisited. */
  method StartSearch(cost: array2<real>, u: array<real>, v: array<real>, dist: array<real>, pred: array<int>,
                     seen: array<bool>, freeRow: int, n: int)
    requires cost.Length0 == n && cost.Length1 == n && u.Length == n && v.Length == n
    requires dist.Length == n && pred.Length == n && seen.Length == n && dist != u && dist != v && 0 <= freeRow < n
    modifies dist, pred, seen
    ensures forall k :: 0 <= k < n ==>
              dist[k] == cost[freeRow, k] - u[freeRow] - v[k] && pred[k] == freeRow && !seen[k]
  {
    for j := 0 to n
      invariant forall k :: 0 <= k < j ==>
                  dist[k] == cost[freeRow, k] - u[freeRow] - v[k] && pred[k] == freeRow && !seen[k]
    {
      dist[j] := cost[freeRow, j] - u[freeRow] - v[j];
      pred[j] := freeRow;
      seen[j] := false;
    }
  }

  /**
   * Offers every unvisited column a path through row i (reached at distance
   * distJ) and keeps it when strictly shorter.
   */
  method RelaxFrom(cost: array2<real>, u: array<real>, v: array<real>, dist: array<real>, pred: array<int>,
                   seen: array<bool>, i: int, distJ: real, n: int)
    requires cost.Length0 == n && cost.Length1 == n && u.Length == n && v.Length == n
    requires dist.Length == n && pred.Length == n && seen.Length == n && 0 <= i < n && dist != u && dist != v
    modifies dist, pred
    ensures forall k :: 0 <= k < n && !seen[k] && cost[i, k] - u[i] - v[k] + distJ < old(dist[k]) ==>
              dist[k] == cost[i, k] - u[i] - v[k] + distJ && pred[k] == i
    ensures forall k :: 0 <= k < n && (seen[k] || cost[i, k] - u[i] - v[k] + distJ >= old(dist[k])) ==>
              dist[k] == old(dist[k]) && pred[k] == old(pred[k])
    ensures forall k :: 0 <= k < n ==> pred[k] == old(pred[k]) || (pred[k] == i && !seen[k])
  {
    for k := 0 to n
      invariant forall k' :: 0 <= k' < k && !seen[k'] && cost[i, k'] - u[i] - v[k'] + distJ < old(dist[k']) ==>
                  dist[k'] == cost[i, k'] - u[i] - v[k'] + distJ && pred[k'] == i
      invariant forall k' :: 0 <= k' < n && (k <= k' || seen[k'] || cost[i, k'] - u[i] - v[k'] + distJ >= old(dist[k'])) ==>
                  dist[k'] == old(dist[k']) && pred[k'] == old(pred[k'])
    {
      if seen[k] {
        continue;
      }
      var newDist := cost[i, k] - u[i] - v[k] + distJ;
      if newDist < dist[k] {
        dist[k] := newDist;
        pred[k] := i;
      }
    }
  }

  /**
   * The first unseen column with the strictly smallest distance below
   * float.MaxValue, or -1 when there is none.
   */
  method FindMinUnseenColumn(dist: array<real>, seen: array<bool>, n: int) returns (minJ: int, minDist: real)
    requires dist.Length == n && seen.Length == n
    ensures minJ == -1 <==> forall j :: 0 <= j < n && !seen[j] ==> dist[j] >= MaxFloat
    ensures minJ == -1 ==> minDist == MaxFloat
    ensures minJ != -1 ==> 0 <= minJ < n && !seen[minJ] && minDist == dist[minJ] < MaxFloat
    ensures minJ != -1 ==> forall j :: 0 <= j < n && !seen[j] ==> dist[minJ] <= dist[j]
    ensures minJ != -1 ==> forall j :: 0 <= j < minJ && !seen[j] ==> dist[minJ] < dist[j]
    ensures minJ != -1 ==> Nearest(dist[..], seen[..], minJ)
  {
    minDist := MaxFloat;
    minJ := -1;
    for j := 0 to n
      invariant minJ == -1 ==> minDist == MaxFloat
      invariant minJ != -1 ==> 0 <= minJ < j && !seen[minJ] && minDist == dist[minJ] < MaxFloat
      invariant forall j' :: 0 <= j' < j && !seen[j'] ==> minDist <= dist[j']
      invariant minJ != -1 ==> forall j' :: 0 <= j' < minJ && !seen[j'] ==> minDist < dist[j']
    {
      if !seen[j] && dist[j] < minDist {
        minDist := dist[j];
        minJ := j;
      }
    }
  }

  /**
   * Shifts the duals by the path length and re-assigns every row on the
   * path that ends in the free column j0. The ghost rank orders the columns
   * as the search visited them.
   */
  method UpdateDualsAndAugment(dist: array<real>, seen: array<bool>, u: array<real>, v: array<real>,
                               rowsol: array<int>, colsol: array<int>, pred: array<int>,
                               freeRow: int, j0: int, n: int, ghost rank: seq<nat>)
    requires u.Length == n && v.Length == n && u != v && dist != u && dist != v
    requires rowsol != colsol && pred != rowsol && pred != colsol
    requires 0 <= freeRow < n && 0 <= j0 < n
    requires Matching(rowsol[..], colsol[..], n) && rowsol[freeRow] == -1
    requires SearchTree(pred[..], seen[..], rowsol[..], rank, freeRow, n) && dist.Length == n
    requires seen[j0] && colsol[j0] == -1
    modifies dist, u, v, rowsol, colsol
    ensures FlipDone(rowsol[..], colsol[..], old(rowsol[..]), old(colsol[..]), freeRow, j0, n)
    ensures forall j :: 0 <= j < n && seen[j] ==> v[j] == old(v[j]) + old(dist[j0]) && dist[j] == old(dist[j])
    ensures forall j :: 0 <= j < n && !seen[j] ==> v[j] == old(v[j]) && dist[j] == old(dist[j]) - old(dist[j0])
    ensures u[freeRow] == old(u[freeRow]) + old(dist[j0])
    ensures forall i :: 0 <= i < n && i != freeRow ==> u[i] == old(u[i])
    ensures pred[j0] == freeRow ==> rowsol[..] == old(rowsol[..])[freeRow := j0]
  {
    var delta := dist[j0];
    ShiftDuals(dist, seen, v, delta, n);
    u[freeRow] := u[freeRow] + delta;
    FlipPath(rowsol, colsol, pred, seen, freeRow, j0, n, rank);
  }

  /** Raises v on visited columns and lowers dist on the others by delta. */
  method ShiftDuals(dist: array<real>, seen: array<bool>, v: array<real>, delta: real, n: int)
    requires dist.Length == n && seen.Length == n && v.Length == n && dist != v
    modifies dist, v
    ensures forall j :: 0 <= j < n && seen[j] ==> v[j] == old(v[j]) + delta && dist[j] == old(dist[j])
    ensures forall j :: 0 <= j < n && !seen[j] ==> v[j] == old(v[j]) && dist[j] == old(dist[j]) - delta
  {
    for j := 0 to n
      invariant forall j' :: 0 <= j' < j && seen[j'] ==> v[j'] == old(v[j']) + delta && dist[j'] == old(dist[j'])
      invariant forall j' :: 0 <= j' < j && !seen[j'] ==> v[j'] == old(v[j']) && dist[j'] == old(dist[j']) - delta
      invariant forall j' :: j <= j' < n ==> v[j'] == old(v[j']) && dist[j'] == old(dist[j'])
    {
      if seen[j] {
        v[j] := v[j] + delta;
      } else {
        dist[j] := dist[j] - delta;
      }
    }
  }

  /**
   * Walks the predecessor chain back from the free column j0 to freeRow,
   * giving each row on the path the column after it. The walk ends because
   * the visit rank strictly falls along the chain.
   */
  method FlipPath(rowsol: array<int>, colsol: array<int>, pred: array<int>, seen: array<bool>,
                  freeRow: int, j0: int, n: int, ghost rank: seq<nat>)
    requires rowsol != colsol && pred != rowsol && pred != colsol && 0 <= freeRow < n && 0 <= j0 < n
    requires Matching(rowsol[..], colsol[..], n) && rowsol[freeRow] == -1
    requires SearchTree(pred[..], seen[..], rowsol[..], rank, freeRow, n)
    requires seen[j0] && colsol[j0] == -1
    modifies rowsol, colsol
    ensures FlipDone(rowsol[..], colsol[..], old(rowsol[..]), old(colsol[..]), freeRow, j0, n)
    ensures PathRows(rowsol[..], old(rowsol[..]), pred[..], seen[..], n)
    ensures pred[j0] == freeRow ==> rowsol[..] == old(rowsol[..])[freeRow := j0]
  {
    ghost var r0, c0, ps, ss := rowsol[..], colsol[..], pred[..], seen[..];
    WalkStart(r0, c0, ps, ss, rank, freeRow, j0, n);
    var curJ := j0;
    while true
      invariant Walk(rowsol[..], colsol[..], r0, c0, ps, ss, rank, freeRow, j0, curJ, n)
      invariant ps[j0] == freeRow ==> curJ == j0 && rowsol[..] == r0
      decreases rank[curJ]
    {
      var curI := pred[curJ];
      var nextJ := rowsol[curI];
      ghost var r1, c1 := rowsol[..], colsol[..];
      if curI == freeRow {
        WalkFinish(r1, c1, r0, c0, ps, ss, rank, freeRow, j0, curJ, n);
      } else {
        WalkAdvance(r1, c1, r0, c0, ps, ss, rank, freeRow, j0, curJ, n);
      }
      rowsol[curI] := curJ;
      colsol[curJ] := curI;
      assert rowsol[..] == r1[curI := curJ] && colsol[..] == c1[curJ := curI];
      if curI == freeRow {
        break;
      }
      curJ := nextJ;
    }
  }

  /** Every row whose column changed now holds a visited column that it is the predecessor of. */
  ghost predicate PathRows(r: seq<int>, r0: seq<int>, pred: seq<int>, seen: seq<bool>, n: int)
  {
    |r| == n && |r0| == n && |pred| == n && |seen| == n &&
    forall i :: 0 <= i < n && r[i] != r0[i] ==> 0 <= r[i] < n && seen[r[i]] && pred[r[i]] == i
  }

  /**
   * The state part-way through the walk: curJ is the one column that no row
   * points at; every other link is consistent, and the rows changed so far
   * held columns visited no earlier than curJ and now sit on the path.
   */
  ghost predicate Walk(r: seq<int>, c: seq<int>, r0: seq<int>, c0: seq<int>, pred: seq<int>, seen: seq<bool>,
                       rank: seq<nat>, freeRow: int, j0: int, curJ: int, n: int)
  {
    SearchTree(pred, seen, r0, rank, freeRow, n) && |r| == n && |c| == n &&
    0 <= freeRow < n && 0 <= j0 < n && 0 <= curJ < n && seen[curJ] &&
    Matching(r0, c0, n) &&
    r[freeRow] == -1 && (curJ == j0 || c[j0] != -1) && (curJ != j0 ==> c0[curJ] != -1) &&
    (forall i :: 0 <= i < n && r[i] != -1 ==> 0 <= r[i] < n && r[i] != curJ && c[r[i]] == i) &&
    (forall j :: 0 <= j < n && j != curJ && c[j] != -1 ==> 0 <= c[j] < n && r[c[j]] == j) &&
    (forall i :: 0 <= i < n && r[i] != r0[i] ==> i != freeRow && 0 <= r0[i] < n && rank[r0[i]] >= rank[curJ]) &&
    (forall i :: 0 <= i < n && i != freeRow ==> (r[i] != -1 <==> r0[i] != -1)) &&
    (forall j :: 0 <= j < n && j != j0 ==> (c[j] != -1 <==> c0[j] != -1)) &&
    PathRows(r, r0, pred, seen, n)
  }

  /** The walk is over: the links are mutual inverses again, with freeRow and j0 newly matched. */
  ghost predicate FlipDone(r: seq<int>, c: seq<int>, r0: seq<int>, c0: seq<int>, freeRow: int, j0: int, n: int)
  {
    Matching(r, c, n) && |r0| == n && |c0| == n &&
    (forall i :: 0 <= i < n ==> (r[i] != -1 <==> r0[i] != -1 || i == freeRow)) &&
    (forall j :: 0 <= j < n ==> (c[j] != -1 <==> c0[j] != -1 || j == j0))
  }

  /** After an augmentation the rows matched before, and the free row, are matched. */
  lemma FlipKeepsMatched(r: seq<int>, c: seq<int>, r0: seq<int>, c0: seq<int>, freeRow: int, j0: int, n: int)
    requires FlipDone(r, c, r0, c0, freeRow, j0, n) && 0 <= freeRow < n
    ensures forall i :: 0 <= i < n ==> (r0[i] != -1 || i == freeRow) ==> r[i] != -1
  {
  }

  /** The walk starts at the free column j0, with nothing changed yet. */
  lemma WalkStart(r0: seq<int>, c0: seq<int>, pred: seq<int>, seen: seq<bool>, rank: seq<nat>,
                  freeRow: int, j0: int, n: int)
    requires Matching(r0, c0, n) && SearchTree(pred, seen, r0, rank, freeRow, n)
    requires 0 <= freeRow < n && 0 <= j0 < n && r0[freeRow] == -1 && seen[j0] && c0[j0] == -1
    ensures Walk(r0, c0, r0, c0, pred, seen, rank, freeRow, j0, j0, n)
  {
  }

  /** The last step of the walk: the free row takes curJ and the links are inverses again. */
  lemma WalkFinish(r: seq<int>, c: seq<int>, r0: seq<int>, c0: seq<int>, pred: seq<int>, seen: seq<bool>,
                   rank: seq<nat>, freeRow: int, j0: int, curJ: int, n: int)
    requires Walk(r, c, r0, c0, pred, seen, rank, freeRow, j0, curJ, n) && pred[curJ] == freeRow
    ensures FlipDone(r[freeRow := curJ], c[curJ := freeRow], r0, c0, freeRow, j0, n)
    ensures PathRows(r[freeRow := curJ], r0, pred, seen, n)
  {
    WalkFinishMatching(r, c, r0, c0, pred, seen, rank, freeRow, j0, curJ, n);
    WalkFinishCounts(r, c, r0, c0, pred, seen, rank, freeRow, j0, curJ, n);
    WalkFinishPath(r, c, r0, c0, pred, seen, rank, freeRow, j0, curJ, n);
  }

  /** After the last step, a row or column is matched exactly when it was before or is the new pair's. */
  lemma WalkFinishCounts(r: seq<int>, c: seq<int>, r0: seq<int>, c0: seq<int>, pred: seq<int>, seen: seq<bool>,
                         rank: seq<nat>, freeRow: int, j0: int, curJ: int, n: int)
    requires Walk(r, c, r0, c0, pred, seen, rank, freeRow, j0, curJ, n) && pred[curJ] == freeRow
    ensures forall i :: 0 <= i < n ==> (r[freeRow := curJ][i] != -1 <==> r0[i] != -1 || i == freeRow)
    ensures forall j :: 0 <= j < n ==> (c[curJ := freeRow][j] != -1 <==> c0[j] != -1 || j == j0)
  {
    var r', c' := r[freeRow := curJ], c[curJ := freeRow];
    forall i | 0 <= i < n
      ensures r'[i] != -1 <==> r0[i] != -1 || i == freeRow
    {
    }
    forall j | 0 <= j < n
      ensures c'[j] != -1 <==> c0[j] != -1 || j == j0
    {
    }
  }

  /** After the last step, every row that moved points at a visited column whose predecessor it is. */
  lemma WalkFinishPath(r: seq<int>, c: seq<int>, r0: seq<int>, c0: seq<int>, pred: seq<int>, seen: seq<bool>,
                       rank: seq<nat>, freeRow: int, j0: int, curJ: int, n: int)
    requires Walk(r, c, r0, c0, pred, seen, rank, freeRow, j0, curJ, n) && pred[curJ] == freeRow
    ensures PathRows(r[freeRow := curJ], r0, pred, seen, n)
  {
    var r' := r[freeRow := curJ];
    forall i | 0 <= i < n && r'[i] != r0[i]
      ensures 0 <= r'[i] < n && seen[r'[i]] && pred[r'[i]] == i
    {
    }
  }

  /** The free row taking curJ closes the one gap in the links. */
  lemma WalkFinishMatching(r: seq<int>, c: seq<int>, r0: seq<int>, c0: seq<int>, pred: seq<int>, seen: seq<bool>,
                           rank: seq<nat>, freeRow: int, j0: int, curJ: int, n: int)
    requires Walk(r, c, r0, c0, pred, seen, rank, freeRow, j0, curJ, n) && pred[curJ] == freeRow
    ensures Matching(r[freeRow := curJ], c[curJ := freeRow], n)
  {
    var r', c' := r[freeRow := curJ], c[curJ := freeRow];
    forall i | 0 <= i < n && r'[i] != -1
      ensures 0 <= r'[i] < n && c'[r'[i]] == i
    {
    }
    forall j | 0 <= j < n && c'[j] != -1
      ensures 0 <= c'[j] < n && r'[c'[j]] == j
    {
    }
  }

  /**
   * A middle step of the walk: row pred[curJ] takes curJ, and its previous
   * column, visited strictly earlier, becomes the dangling one.
   */
  lemma WalkAdvance(r: seq<int>, c: seq<int>, r0: seq<int>, c0: seq<int>, pred: seq<int>, seen: seq<bool>,
                    rank: seq<nat>, freeRow: int, j0: int, curJ: int, n: int)
    requires Walk(r, c, r0, c0, pred, seen, rank, freeRow, j0, curJ, n) && pred[curJ] != freeRow
    ensures 0 <= r[pred[curJ]] < n && rank[r[pred[curJ]]] < rank[curJ]
    ensures Walk(r[pred[curJ] := curJ], c[curJ := pred[curJ]], r0, c0, pred, seen, rank, freeRow, j0, r[pred[curJ]], n)
  {
    var curI := pred[curJ];
    assert r[curI] == r0[curI] && c0[r0[curI]] == curI;
    var nextJ := r[curI];
    WalkAdvanceLinks(r, c, r0, c0, pred, seen, rank, freeRow, j0, curJ, n);
    WalkAdvanceRest(r, c, r0, c0, pred, seen, rank, freeRow, j0, curJ, n);
    assert Walk(r[curI := curJ], c[curJ := curI], r0, c0, pred, seen, rank, freeRow, j0, nextJ, n);
  }

  /** After a middle step the links are consistent again, except at the new dangling column. */
  lemma WalkAdvanceLinks(r: seq<int>, c: seq<int>, r0: seq<int>, c0: seq<int>, pred: seq<int>, seen: seq<bool>,
                         rank: seq<nat>, freeRow: int, j0: int, curJ: int, n: int)
    requires Walk(r, c, r0, c0, pred, seen, rank, freeRow, j0, curJ, n) && pred[curJ] != freeRow
    ensures var curI := pred[curJ]; var r', c' := r[curI := curJ], c[curJ := curI];
              (forall i :: 0 <= i < n && r'[i] != -1 ==> 0 <= r'[i] < n && r'[i] != r[curI] && c'[r'[i]] == i) &&
              (forall j :: 0 <= j < n && j != r[curI] && c'[j] != -1 ==> 0 <= c'[j] < n && r'[c'[j]] == j)
  {
    var curI := pred[curJ];
    assert r[curI] == r0[curI] && c0[r0[curI]] == curI;
    var nextJ := r[curI];
    var r', c' := r[curI := curJ], c[curJ := curI];
    forall i | 0 <= i < n && r'[i] != -1
      ensures 0 <= r'[i] < n && r'[i] != nextJ && c'[r'[i]] == i
    {
      if i != curI {
        assert r[i] != nextJ;
      }
    }
    forall j | 0 <= j < n && j != nextJ && c'[j] != -1
      ensures 0 <= c'[j] < n && r'[c'[j]] == j
    {
    }
  }

  /**
   * After a middle step the rows that moved held columns visited no earlier
   * than the new dangling one, and now sit on the path; the matched rows and
   * columns are the original ones, apart from the free row and j0.
   */
  lemma WalkAdvanceRest(r: seq<int>, c: seq<int>, r0: seq<int>, c0: seq<int>, pred: seq<int>, seen: seq<bool>,
                        rank: seq<nat>, freeRow: int, j0: int, curJ: int, n: int)
    requires Walk(r, c, r0, c0, pred, seen, rank, freeRow, j0, curJ, n) && pred[curJ] != freeRow
    ensures 0 <= r[pred[curJ]] < n && rank[r[pred[curJ]]] < rank[curJ] && seen[r[pred[curJ]]]
    ensures var curI := pred[curJ]; var r', c' := r[curI := curJ], c[curJ := curI];
              (forall i :: 0 <= i < n && r'[i] != r0[i] ==> i != freeRow && 0 <= r0[i] < n && rank[r0[i]] >= rank[r[curI]]) &&
              (forall i :: 0 <= i < n && i != freeRow ==> (r'[i] != -1 <==> r0[i] != -1)) &&
              (forall j :: 0 <= j < n && j != j0 ==> (c'[j] != -1 <==> c0[j] != -1)) &&
              PathRows(r', r0, pred, seen, n)
  {
    var curI := pred[curJ];
    assert r[curI] == r0[curI] && c0[r0[curI]] == curI;
    var nextJ := r[curI];
    var r', c' := r[curI := curJ], c[curJ := curI];
    forall i | 0 <= i < n && r'[i] != r0[i]
      ensures i != freeRow && 0 <= r0[i] < n && rank[r0[i]] >= rank[nextJ]
    {
    }
    forall i | 0 <= i < n && i != freeRow
      ensures r'[i] != -1 <==> r0[i] != -1
    {
    }
    forall j | 0 <= j < n && j != j0
      ensures c'[j] != -1 <==> c0[j] != -1
    {
    }
    forall i | 0 <= i < n && r'[i] != r0[i]
      ensures 0 <= r'[i] < n && seen[r'[i]] && pred[r'[i]] == i
    {
    }
  }

  /**
   * Keeping each original row's column of a complete matching, with padded
   * columns as -1, gives an assignment; a complete one when no column was
   * padded in.
   */
  lemma ExtractedIsAssignment(rowsol: seq<int>, colsol: seq<int>, a: seq<int>, n: int, nRows: int, nCols: int)
    requires Matching(rowsol, colsol, n) && forall i :: 0 <= i < n ==> rowsol[i] != -1
    requires 0 <= nRows && 0 <= nCols && n == Max(nRows, nCols) && |a| == nRows
    requires forall i :: 0 <= i < nRows ==> a[i] == (if rowsol[i] < nCols then rowsol[i] else -1)
    ensures IsAssignment(a, nRows, nCols)
    ensures nRows <= nCols ==> forall i :: 0 <= i < nRows ==> a[i] != -1
    ensures nRows == nCols ==> a == rowsol
  {
    forall i1, i2 | 0 <= i1 < i2 < nRows && a[i1] != -1
      ensures a[i1] != a[i2]
    {
      assert colsol[rowsol[i1]] == i1 && colsol[rowsol[i2]] == i2;
    }
  }

  /** Keeps the assignment of each original row, mapping padded columns to -1. */
  method ExtractAssignment(rowsol: array<int>, nRows: int, nCols: int) returns (assignment: array<int>)
    requires 0 <= nRows <= rowsol.Length
    ensures fresh(assignment) && assignment.Length == nRows
    ensures forall i :: 0 <= i < nRows ==> assignment[i] == (if rowsol[i] < nCols then rowsol[i] else -1)
  {
    assignment := new int[nRows];
    for i := 0 to nRows
      invariant forall k :: 0 <= k < i ==> assignment[k] == (if rowsol[k] < nCols then rowsol[k] else -1)
    {
      var col := rowsol[i];
      assignment[i] := if col < nCols then col else -1;
    }
  }
}
