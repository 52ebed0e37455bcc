/**
 Gauss-Jordan elimination with partial pivoting, in place on an augmented matrix, over
 real arithmetic: when it succeeds, the result is the only solution of the system given.
 */
module LinearSystems {
  import opened Optional

  type Matrix = seq<seq<real>>

  const SINGULAR: real := 0.0000000001

  function Magnitude(x: real): real { if x < 0.0 then -x else x }

  /** The first n products of the row with x. */
  ghost function Dot(row: seq<real>, x: seq<real>, n: nat): real
    requires n <= |row| && n <= |x|
  {
    if n == 0 then 0.0 else Dot(row, x, n - 1) + row[n - 1] * x[n - 1]
  }

  ghost predicate RowSolved(row: seq<real>, n: nat, x: seq<real>) {
    |row| == n + 1 && |x| == n && Dot(row, x, n) == row[n]
  }

  /** x satisfies the n equations; the right-hand sides are in column n. */
  ghost predicate Solves(m: Matrix, n: nat, x: seq<real>) {
    |m| == n && |x| == n && forall i :: 0 <= i < n ==> RowSolved(m[i], n, x)
  }

  ghost predicate Shaped(m: Matrix, n: nat) {
    |m| == n && forall i :: 0 <= i < n ==> |m[i]| == n + 1
  }

  ghost predicate SameSolutions(m: Matrix, m': Matrix, n: nat) {
    forall x :: Solves(m, n, x) <==> Solves(m', n, x)
  }

  /** Columns before c are unit vectors. */
  ghost predicate Reduced(m: Matrix, n: nat, c: nat) {
    Shaped(m, n) && c <= n && forall i, j :: 0 <= i < n && 0 <= j < c ==> m[i][j] == if i == j then 1.0 else 0.0
  }

  ghost function Divided(row: seq<real>, d: real): (r: seq<real>)
    requires d != 0.0
    ensures |r| == |row| && forall k :: 0 <= k < |row| ==> r[k] == row[k] / d
  {
    seq(|row|, k requires 0 <= k < |row| => row[k] / d)
  }

  ghost function Subtracted(row: seq<real>, factor: real, other: seq<real>): (r: seq<real>)
    requires |row| == |other|
    ensures |r| == |row| && forall k :: 0 <= k < |row| ==> r[k] == row[k] - factor * other[k]
  {
    seq(|row|, k requires 0 <= k < |row| => row[k] - factor * other[k])
  }

  lemma QuotientTimes(a: real, d: real, x: real)
    requires d != 0.0
    ensures (a / d) * x == (a * x) / d
  {}

  lemma QuotientAdds(a: real, b: real, d: real)
    requires d != 0.0
    ensures a / d + b / d == (a + b) / d
  {}

  lemma {:induction false} DotDivided(row: seq<real>, d: real, x: seq<real>, n: nat)
    requires d != 0.0 && n <= |row| && n <= |x|
    ensures Dot(Divided(row, d), x, n) == Dot(row, x, n) / d
  {
    if n > 0 {
      DotDivided(row, d, x, n - 1);
      QuotientTimes(row[n - 1], d, x[n - 1]);
      QuotientAdds(Dot(row, x, n - 1), row[n - 1] * x[n - 1], d);
    }
  }

  lemma ProductStep(a: real, b: real, f: real, x: real, s: real, t: real)
    ensures s - f * t + (a - f * b) * x == s + a * x - f * (t + b * x)
  {}

  lemma {:induction false} DotSubtracted(row: seq<real>, f: real, other: seq<real>, x: seq<real>, n: nat)
    requires |row| == |other| && n <= |row| && n <= |x|
    ensures Dot(Subtracted(row, f, other), x, n) == Dot(row, x, n) - f * Dot(other, x, n)
  {
    if n > 0 {
      DotSubtracted(row, f, other, x, n - 1);
      ProductStep(row[n - 1], other[n - 1], f, x[n - 1], Dot(row, x, n - 1), Dot(other, x, n - 1));
    }
  }

  lemma DividedSolves(row: seq<real>, d: real, n: nat, x: seq<real>)
    requires d != 0.0 && |row| == n + 1
    ensures RowSolved(Divided(row, d), n, x) <==> RowSolved(row, n, x)
  {
    if |x| == n {
      DotDivided(row, d, x, n);
      QuotientsEqual(Dot(row, x, n), row[n], d);
    }
  }

  lemma QuotientsEqual(a: real, b: real, d: real)
    requires d != 0.0
    ensures a / d == b / d <==> a == b
  {
    assert (a / d) * d == a && (b / d) * d == b;
  }

  lemma SubtractedSolves(row: seq<real>, f: real, other: seq<real>, n: nat, x: seq<real>)
    requires |row| == |other| == n + 1 && RowSolved(other, n, x)
    ensures RowSolved(Subtracted(row, f, other), n, x) <==> RowSolved(row, n, x)
  {
    DotSubtracted(row, f, other, x, n);
  }

  lemma SwapKeeps(m: Matrix, n: nat, i: nat, j: nat)
    requires Shaped(m, n) && i < n && j < n
    ensures SameSolutions(m, m[i := m[j]][j := m[i]], n)
  {
    var m' := m[i := m[j]][j := m[i]];
    forall x ensures Solves(m, n, x) <==> Solves(m', n, x) {
      if Solves(m', n, x) {
        assert m[i] == m'[j] && m[j] == m'[i];
        assert forall k :: 0 <= k < n && k != i && k != j ==> m[k] == m'[k];
        forall k | 0 <= k < n ensures RowSolved(m[k], n, x) {
          var l := if k == i then j else if k == j then i else k;
          assert RowSolved(m'[l], n, x);
        }
      }
    }
  }

  lemma DivideKeeps(m: Matrix, n: nat, i: nat, d: real)
    requires Shaped(m, n) && i < n && d != 0.0
    ensures SameSolutions(m, m[i := Divided(m[i], d)], n)
  {
    hide RowSolved;
    var m' := m[i := Divided(m[i], d)];
    forall x ensures Solves(m, n, x) <==> Solves(m', n, x) {
      DividedSolves(m[i], d, n, x);
      assert forall k :: 0 <= k < n && k != i ==> m[k] == m'[k];
      assert m'[i] == Divided(m[i], d);
    }
  }

  lemma SubtractKeeps(m: Matrix, n: nat, i: nat, f: real, j: nat)
    requires Shaped(m, n) && i < n && j < n && i != j
    ensures SameSolutions(m, m[i := Subtracted(m[i], f, m[j])], n)
  {
    hide RowSolved;
    var m' := m[i := Subtracted(m[i], f, m[j])];
    forall x ensures Solves(m, n, x) <==> Solves(m', n, x) {
      assert m'[j] == m[j] && m'[i] == Subtracted(m[i], f, m[j]);
      assert forall k :: 0 <= k < n && k != i ==> m[k] == m'[k];
      if RowSolved(m[j], n, x) {
        SubtractedSolves(m[i], f, m[j], n, x);
      }
    }
  }

  lemma SameTransitive(a: Matrix, b: Matrix, c: Matrix, n: nat)
    requires SameSolutions(a, b, n) && SameSolutions(b, c, n)
    ensures SameSolutions(a, c, n)
  {}

  /** A fully reduced system has its right-hand side as only solution. */
  lemma ReducedSolution(m: Matrix, n: nat, x: seq<real>)
    requires Reduced(m, n, n) && |x| == n
    ensures Solves(m, n, x) <==> forall i :: 0 <= i < n ==> x[i] == m[i][n]
  {
    forall i | 0 <= i < n ensures RowSolved(m[i], n, x) <==> x[i] == m[i][n] {
      UnitDot(m[i], x, n, i);
    }
  }

  lemma {:induction false} UnitDot(row: seq<real>, x: seq<real>, n: nat, i: nat)
    requires n <= |row| && n <= |x| && forall j :: 0 <= j < n ==> row[j] == if i == j then 1.0 else 0.0
    ensures Dot(row, x, n) == if i < n then x[i] else 0.0
  {
    if n > 0 {
      UnitDot(row, x, n - 1, i);
    }
  }

  /** The part of the array that holds the system. */
  ghost function Held(a: array2<real>, n: nat): (m: Matrix)
    requires n <= a.Length0 && n + 1 <= a.Length1
    reads a
    ensures Shaped(m, n)
    ensures forall i, j :: 0 <= i < n && 0 <= j <= n ==> m[i][j] == a[i, j]
  {
    seq(n, i requires 0 <= i < n reads a => seq(n + 1, j requires 0 <= j < n + 1 reads a => a[i, j]))
  }

  lemma SameMatrix(m: Matrix, m': Matrix, n: nat)
    requires Shaped(m, n) && Shaped(m', n) && forall i, j :: 0 <= i < n && 0 <= j <= n ==> m[i][j] == m'[i][j]
    ensures m == m'
  {
    forall i | 0 <= i < n ensures m[i] == m'[i] {}
  }

  /** The first row below col, up to row k, with the largest entry in the column. */
  ghost function PivotRow(m: Matrix, n: nat, col: nat, k: nat): (p: nat)
    requires Shaped(m, n) && col < k <= n
    ensures col <= p < k && forall i :: col <= i < k ==> Magnitude(m[i][col]) <= Magnitude(m[p][col])
    ensures forall i :: col <= i < p ==> Magnitude(m[i][col]) < Magnitude(m[p][col])
  {
    if k == col + 1 then col
    else
      var p := PivotRow(m, n, col, k - 1);
      if Magnitude(m[k - 1][col]) > Magnitude(m[p][col]) then k - 1 else p
  }

  ghost function Swapped(m: Matrix, n: nat, i: nat, j: nat): (r: Matrix)
    requires Shaped(m, n) && i < n && j < n
    ensures Shaped(r, n)
  {
    m[i := m[j]][j := m[i]]
  }

  ghost function Normalized(m: Matrix, n: nat, c: nat): (r: Matrix)
    requires Shaped(m, n) && c < n && m[c][c] != 0.0
    ensures Shaped(r, n)
  {
    m[c := Divided(m[c], m[c][c])]
  }

  /** The first r rows cleared in the column of row c. */
  ghost function Cleared(m: Matrix, n: nat, c: nat, r: nat): (t: Matrix)
    requires Shaped(m, n) && c < n && r <= n
    ensures Shaped(t, n)
  {
    if r == 0 then m
    else
      var t := Cleared(m, n, c, r - 1);
      if r - 1 == c then t else t[r - 1 := Subtracted(t[r - 1], t[r - 1][c], t[c])]
  }

  /** The column has no pivot of sufficient size. */
  ghost predicate Stuck(m: Matrix, n: nat, c: nat)
    requires Shaped(m, n) && c < n
  {
    Magnitude(m[PivotRow(m, n, c, n)][c]) < SINGULAR
  }

  /** One column reduced: its largest entry becomes the pivot, scaled to one, and the rest is cleared. */
  ghost function ColumnReduced(m: Matrix, n: nat, c: nat): (r: Matrix)
    requires Shaped(m, n) && c < n && !Stuck(m, n, c)
    ensures Shaped(r, n)
  {
    var swapped := Swapped(m, n, c, PivotRow(m, n, c, n));
    Cleared(Normalized(swapped, n, c), n, c, n)
  }

  /** The elimination from column c on; none when it gets stuck. */
  ghost function Eliminated(m: Matrix, n: nat, c: nat): (r: Option<Matrix>)
    requires Shaped(m, n) && c <= n
    ensures r.Some? ==> Shaped(r.value, n)
    decreases n - c
  {
    if c == n then Some(m)
    else if Stuck(m, n, c) then None
    else Eliminated(ColumnReduced(m, n, c), n, c + 1)
  }

  method FindPivot(a: array2<real>, n: nat, col: nat) returns (pivot: nat, largest: real)
    requires col < n <= a.Length0 && n + 1 <= a.Length1
    ensures pivot == PivotRow(Held(a, n), n, col, n) && largest == Magnitude(a[pivot, col])
  {
    pivot, largest := col, Magnitude(a[col, col]);
    for row := col + 1 to n
      invariant pivot == PivotRow(Held(a, n), n, col, row) && largest == Magnitude(a[pivot, col])
    {
      var size := Magnitude(a[row, col]);
      if size > largest {
        pivot, largest := row, size;
      }
    }
  }

  /** Swaps two rows that agree before the column. */
  method SwapRows(a: array2<real>, n: nat, col: nat, pivot: nat)
    requires col < n <= a.Length0 && n + 1 <= a.Length1 && col < pivot < n
    requires Reduced(Held(a, n), n, col)
    modifies a
    ensures Held(a, n) == old(Held(a, n))[col := old(Held(a, n))[pivot]][pivot := old(Held(a, n))[col]]
  {
    ghost var m := Held(a, n);
    for k := col to n + 1
      invariant forall i, j :: 0 <= i < n && 0 <= j <= n ==>
        a[i, j] == if j >= k || (i != col && i != pivot) || j < col then m[i][j] else if i == col then m[pivot][j] else m[col][j]
    {
      var held := a[col, k];
      a[col, k] := a[pivot, k];
      a[pivot, k] := held;
    }
    SameMatrix(Held(a, n), m[col := m[pivot]][pivot := m[col]], n);
  }

  /** Divides a row by its pivot; entries before the column are zero. */
  method NormalizeRow(a: array2<real>, n: nat, col: nat)
    requires col < n <= a.Length0 && n + 1 <= a.Length1 && a[col, col] != 0.0
    requires Reduced(Held(a, n), n, col)
    modifies a
    ensures Held(a, n) == old(Held(a, n))[col := Divided(old(Held(a, n))[col], old(a[col, col]))]
  {
    ghost var m := Held(a, n);
    var divisor := a[col, col];
    for k := col to n + 1
      invariant forall i, j :: 0 <= i < n && 0 <= j <= n ==>
        a[i, j] == if i == col && col <= j < k then m[i][j] / divisor else m[i][j]
    {
      a[col, k] := a[col, k] / divisor;
    }
    forall j | 0 <= j < col ensures m[col][j] == m[col][j] / divisor {
      assert m[col][j] == 0.0;
    }
    SameMatrix(Held(a, n), m[col := Divided(m[col], divisor)], n);
  }

  /** Subtracts a multiple of the pivot row so that the row's entry in the column vanishes. */
  method EliminateRow(a: array2<real>, n: nat, col: nat, row: nat)
    requires col < n <= a.Length0 && n + 1 <= a.Length1 && row < n && row != col
    requires forall j :: 0 <= j < col ==> a[col, j] == 0.0
    modifies a
    ensures Held(a, n) == old(Held(a, n))[row := Subtracted(old(Held(a, n))[row], old(a[row, col]), old(Held(a, n))[col])]
  {
    ghost var m := Held(a, n);
    var factor := a[row, col];
    for k := col to n + 1
      invariant forall i, j :: 0 <= i < n && 0 <= j <= n ==>
        a[i, j] == if i == row && col <= j < k then m[i][j] - factor * m[col][j] else m[i][j]
    {
      a[row, k] := a[row, k] - factor * a[col, k];
    }
    forall j | 0 <= j < col ensures m[row][j] == m[row][j] - factor * m[col][j] {
      assert m[col][j] == 0.0;
    }
    SameMatrix(Held(a, n), m[row := Subtracted(m[row], factor, m[col])], n);
  }

  /** Columns before c are unit vectors, and so is column c in the rows before r and in row c itself. */
  ghost predicate Clearing(m: Matrix, n: nat, c: nat, r: nat) {
    && c < n && Reduced(m, n, c) && m[c][c] == 1.0
    && forall i :: 0 <= i < r && i < n && i != c ==> m[i][c] == 0.0
  }

  lemma NormalizedIsClearing(m: Matrix, n: nat, c: nat)
    requires c < n && Reduced(m, n, c) && m[c][c] != 0.0
    ensures Clearing(Normalized(m, n, c), n, c, 0)
  {
    var m' := Normalized(m, n, c);
    QuotientsEqual(m[c][c], m[c][c], m[c][c]);
    assert m'[c][c] * m[c][c] == m[c][c];
    forall j | 0 <= j < c ensures m'[c][j] == m[c][j] {
      assert m[c][j] == 0.0;
    }
  }

  lemma ClearRow(m: Matrix, n: nat, c: nat, r: nat)
    requires Clearing(m, n, c, r) && r < n && r != c
    ensures Clearing(m[r := Subtracted(m[r], m[r][c], m[c])], n, c, r + 1)
  {}

  lemma ClearedColumn(m: Matrix, n: nat, c: nat)
    requires Clearing(m, n, c, n)
    ensures Reduced(m, n, c + 1)
  {}

  lemma {:induction false} ClearedIsClearing(m: Matrix, n: nat, c: nat, r: nat)
    requires Clearing(m, n, c, 0) && r <= n
    ensures Clearing(Cleared(m, n, c, r), n, c, r) && SameSolutions(m, Cleared(m, n, c, r), n)
  {
    hide Subtracted, SameSolutions, Solves;
    if r == 0 {
      SameSelf(m, n);
    } else {
      ClearedIsClearing(m, n, c, r - 1);
      var t := Cleared(m, n, c, r - 1);
      if r - 1 != c {
        ClearRow(t, n, c, r - 1);
        SubtractKeeps(t, n, r - 1, t[r - 1][c], c);
        SameTransitive(m, t, Cleared(m, n, c, r), n);
      }
    }
  }

  /** Reducing a column keeps the solutions and makes one more column a unit vector. */
  lemma ColumnKeeps(m: Matrix, n: nat, c: nat)
    requires c < n && Reduced(m, n, c) && !Stuck(m, n, c)
    ensures Reduced(ColumnReduced(m, n, c), n, c + 1) && SameSolutions(m, ColumnReduced(m, n, c), n)
  {
    hide SameSolutions, Solves, Cleared;
    var p := PivotRow(m, n, c, n);
    var m1 := Swapped(m, n, c, p);
    SwapKeeps(m, n, c, p);
    var m2 := Normalized(m1, n, c);
    DivideKeeps(m1, n, c, m1[c][c]);
    NormalizedIsClearing(m1, n, c);
    ClearedIsClearing(m2, n, c, n);
    ClearedColumn(Cleared(m2, n, c, n), n, c);
    SameTransitive(m, m1, m2, n);
    SameTransitive(m, m2, ColumnReduced(m, n, c), n);
  }

  /** When the elimination succeeds, its last column is the only solution. */
  lemma {:induction false} EliminationSolves(m: Matrix, n: nat, c: nat, x: seq<real>)
    requires Shaped(m, n) && Reduced(m, n, c) && Eliminated(m, n, c).Some? && |x| == n
    ensures Solves(m, n, x) <==> forall i :: 0 <= i < n ==> x[i] == Eliminated(m, n, c).value[i][n]
    decreases n - c
  {
    hide ColumnReduced, Solves, Reduced, SameSolutions;
    if c == n {
      ReducedSolution(m, n, x);
    } else {
      ColumnKeeps(m, n, c);
      SameApplies(m, ColumnReduced(m, n, c), n, x);
      EliminationSolves(ColumnReduced(m, n, c), n, c + 1, x);
    }
  }

  /** A vector that the first c rows of a reduced system, with column c, send to zero. */
  ghost function Kernel(m: Matrix, n: nat, c: nat): (d: seq<real>)
    requires Reduced(m, n, c) && c < n
    ensures |d| == n && d[c] == 1.0 && (forall j :: 0 <= j < c ==> d[j] == -m[j][c]) && forall j :: c < j < n ==> d[j] == 0.0
  {
    seq(n, j requires 0 <= j < n => if j < c then -m[j][c] else if j == c then 1.0 else 0.0)
  }

  ghost function Added(x: seq<real>, d: seq<real>): (y: seq<real>)
    requires |x| == |d|
    ensures |y| == |x| && forall j :: 0 <= j < |x| ==> y[j] == x[j] + d[j]
  {
    seq(|x|, j requires 0 <= j < |x| => x[j] + d[j])
  }

  lemma {:induction false} DotAdded(row: seq<real>, x: seq<real>, d: seq<real>, n: nat)
    requires n <= |row| && n <= |x| == |d|
    ensures Dot(row, Added(x, d), n) == Dot(row, x, n) + Dot(row, d, n)
  {
    if n > 0 {
      DotAdded(row, x, d, n - 1);
      ProductStep(row[n - 1], 0.0, 0.0, Added(x, d)[n - 1], 0.0, 0.0);
    }
  }

  lemma {:induction false} DotKernel(m: Matrix, n: nat, c: nat, i: nat, k: nat)
    requires Reduced(m, n, c) && c < n && i < n && k <= n && (i >= c ==> m[i][c] == 0.0)
    ensures Dot(m[i], Kernel(m, n, c), k) == if i < c && i < k <= c then -m[i][c] else 0.0
  {
    if k > 0 {
      DotKernel(m, n, c, i, k - 1);
    }
  }

  /** Stuck without any pivot at all, a system has no solution or more than one. */
  lemma StuckAtZero(m: Matrix, n: nat, c: nat, x: seq<real>)
    requires c < n && Reduced(m, n, c) && Magnitude(m[PivotRow(m, n, c, n)][c]) == 0.0 && Solves(m, n, x)
    ensures Solves(m, n, Added(x, Kernel(m, n, c))) && Added(x, Kernel(m, n, c)) != x
  {
    var d := Kernel(m, n, c);
    forall i | 0 <= i < n ensures RowSolved(m[i], n, Added(x, d)) {
      assert RowSolved(m[i], n, x);
      assert i >= c ==> Magnitude(m[i][c]) <= 0.0;
      DotAdded(m[i], x, d, n);
      DotKernel(m, n, c, i, n);
    }
    assert Added(x, d)[c] == x[c] + 1.0;
  }

  /** Turns one more column into a unit vector. */
  method ReduceColumn(a: array2<real>, n: nat, col: nat, pivot: nat)
    requires col < n <= a.Length0 && n + 1 <= a.Length1
    requires Reduced(Held(a, n), n, col) && !Stuck(Held(a, n), n, col) && pivot == PivotRow(Held(a, n), n, col, n)
    modifies a
    ensures Held(a, n) == ColumnReduced(old(Held(a, n)), n, col)
  {
    hide Held, Cleared;
    ghost var m0 := Held(a, n);
    SwapWithItself(m0, n, col);
    if pivot != col {
      SwapRows(a, n, col, pivot);
    }
    ghost var m1 := Held(a, n);
    assert m1 == Swapped(m0, n, col, pivot);
    NormalizeRow(a, n, col);
    ghost var m2 := Normalized(m1, n, col);
    NormalizedIsClearing(m1, n, col);
    NothingCleared(m2, n, col);
    for row := 0 to n
      invariant Held(a, n) == Cleared(m2, n, col, row)
    {
      ClearedIsClearing(m2, n, col, row);
      NextCleared(m2, n, col, row);
      if row != col {
        EliminateRow(a, n, col, row);
      }
    }
  }

  lemma SwapWithItself(m: Matrix, n: nat, i: nat)
    requires Shaped(m, n) && i < n
    ensures Swapped(m, n, i, i) == m
  {}

  lemma NothingCleared(m: Matrix, n: nat, c: nat)
    requires Shaped(m, n) && c < n
    ensures Cleared(m, n, c, 0) == m
  {}

  lemma NextCleared(m: Matrix, n: nat, c: nat, r: nat)
    requires Shaped(m, n) && c < n && r < n
    ensures var t := Cleared(m, n, c, r);
            Cleared(m, n, c, r + 1) == if r == c then t else t[r := Subtracted(t[r], t[r][c], t[c])]
  {}

  lemma SameSelf(m: Matrix, n: nat)
    ensures SameSolutions(m, m, n)
  {}

  /** The right-hand side of a fully reduced system. */
  ghost function LastColumn(m: Matrix, n: nat): (x: seq<real>)
    requires Shaped(m, n)
    ensures |x| == n && forall i :: 0 <= i < n ==> x[i] == m[i][n]
  {
    seq(n, i requires 0 <= i < n => m[i][n])
  }

  /** What the solver finds: the last column of the eliminated system, unless the elimination gets stuck. */
  ghost function Solution(m: Matrix, n: nat): (x: Option<seq<real>>)
    requires Shaped(m, n)
    ensures x.Some? ==> |x.value| == n
  {
    var r := Eliminated(m, n, 0);
    if r.Some? then Some(LastColumn(r.value, n)) else None
  }

  /** A solution found is the one and only solution; without one of them, none is found. */
  lemma SolutionIsUnique(m: Matrix, n: nat)
    requires Shaped(m, n) && Solution(m, n).Some?
    ensures forall x: seq<real> :: |x| == n ==> (Solves(m, n, x) <==> x == Solution(m, n).value)
  {
    NothingReduced(m, n);
    forall x: seq<real> | |x| == n ensures Solves(m, n, x) <==> x == Solution(m, n).value {
      EliminationSolves(m, n, 0, x);
    }
  }

  /** Solves the system in place: it succeeds exactly when the elimination does, with its solution. */
  method SolveLinearSystem(n: nat, augmented: array2<real>, out: array<real>) returns (solved: bool)
    requires n <= augmented.Length0 && n + 1 <= augmented.Length1 && n <= out.Length
    modifies augmented, out
    ensures solved <==> old(Solution(Held(augmented, n), n)).Some?
    ensures solved ==> out[..n] == old(Solution(Held(augmented, n), n)).value
    ensures !solved ==> out[..] == old(out[..])
    ensures out[n..] == old(out[n..])
  {
    hide Held, Reduced, ColumnReduced, SameSolutions, Solves;
    ghost var m0 := Held(augmented, n);
    NothingReduced(m0, n);
    for col := 0 to n
      invariant Reduced(Held(augmented, n), n, col) && Eliminated(Held(augmented, n), n, col) == Eliminated(m0, n, 0)
      invariant out[..] == old(out[..])
    {
      var pivot, largest := FindPivot(augmented, n, col);
      if largest < SINGULAR {
        return false;
      }
      ColumnKeeps(Held(augmented, n), n, col);
      ReduceColumn(augmented, n, col, pivot);
    }
    ghost var m := Held(augmented, n);
    for i := 0 to n
      invariant Held(augmented, n) == m && out[n..] == old(out[n..])
      invariant forall k :: 0 <= k < i ==> out[k] == m[k][n]
    {
      out[i] := augmented[i, n];
    }
    assert out[..n] == LastColumn(m, n);
    solved := true;
  }

  lemma NothingReduced(m: Matrix, n: nat)
    requires Shaped(m, n)
    ensures Reduced(m, n, 0)
  {}

  lemma SameApplies(m: Matrix, m': Matrix, n: nat, x: seq<real>)
    requires SameSolutions(m, m', n)
    ensures Solves(m, n, x) <==> Solves(m', n, x)
  {}
}
