/**
 Zero-sum matrix games with at most four moves a side: the pure maximin, the mixed
 solution by support enumeration, and what either one guarantees.
 */
module MatrixGames {
  import opened LinearSystems
  import opened Supports
  import opened Limits
  import opened Optional

  const CLOSE: real := 0.000000000001
  const AGREEMENT: real := 0.000001

  predicate IsClose(a: real, b: real) {
    Magnitude(a - b) <= CLOSE
  }

  function Transposed(m: Matrix): (t: Matrix)
    requires |m| == 4 && forall i :: 0 <= i < 4 ==> |m[i]| == 4
    ensures FourByFour(t) && forall i, j :: 0 <= i < 4 && 0 <= j < 4 ==> t[j][i] == m[i][j]
  {
    seq(4, j requires 0 <= j < 4 => seq(4, i requires 0 <= i < 4 => m[i][j]))
  }

  /** Weights of the first n moves that add up to one. */
  ghost predicate Distribution(p: seq<real>, n: nat) {
    n <= |p| && (forall i :: 0 <= i < n ==> p[i] >= 0.0) && PartSum(p, n) == 1.0
  }

  /** The expected payoff when the rows are played with x and the columns with y. */
  ghost function Expected(m: Matrix, x: seq<real>, y: seq<real>, rows: nat, cols: nat): real
    requires FourByFour(m) && rows <= 4 && cols <= 4 && rows <= |x| && cols <= |y|
  {
    if rows == 0 then 0.0 else Expected(m, x, y, rows - 1, cols) + x[rows - 1] * Dot(m[rows - 1], y, cols)
  }

  lemma Product3(x: real, a: real, s: real, b: real, y: real)
    ensures x * (s + a * y) + b * y == x * s + (b + x * a) * y
  {}

  /** The expected payoff summed column by column. */
  ghost function ByColumns(m: Matrix, x: seq<real>, y: seq<real>, rows: nat, cols: nat): real
    requires FourByFour(m) && rows <= 4 && cols <= 4 && |x| == 4 && cols <= |y|
  {
    if cols == 0 then 0.0 else ByColumns(m, x, y, rows, cols - 1) + Payoff(m, x, rows, cols - 1) * y[cols - 1]
  }

  lemma {:induction false} AddRow(m: Matrix, x: seq<real>, y: seq<real>, rows: nat, cols: nat)
    requires FourByFour(m) && rows < 4 && cols <= 4 && |x| == 4 && cols <= |y|
    ensures ByColumns(m, x, y, rows + 1, cols) == ByColumns(m, x, y, rows, cols) + x[rows] * Dot(m[rows], y, cols)
  {
    if cols > 0 {
      AddRow(m, x, y, rows, cols - 1);
      Product3(x[rows], m[rows][cols - 1], Dot(m[rows], y, cols - 1), Payoff(m, x, rows, cols - 1), y[cols - 1]);
    }
  }

  lemma {:induction false} NoRows(m: Matrix, x: seq<real>, y: seq<real>, cols: nat)
    requires FourByFour(m) && cols <= 4 && |x| == 4 && cols <= |y|
    ensures ByColumns(m, x, y, 0, cols) == 0.0
  {
    if cols > 0 {
      NoRows(m, x, y, cols - 1);
    }
  }

  /** Summing by rows or by columns gives the same expectation. */
  lemma {:induction false} Interchange(m: Matrix, x: seq<real>, y: seq<real>, rows: nat, cols: nat)
    requires FourByFour(m) && rows <= 4 && cols <= 4 && |x| == 4 && cols <= |y|
    ensures Expected(m, x, y, rows, cols) == ByColumns(m, x, y, rows, cols)
  {
    if rows == 0 {
      NoRows(m, x, y, cols);
    } else {
      Interchange(m, x, y, rows - 1, cols);
      AddRow(m, x, y, rows - 1, cols);
    }
  }

  lemma Monotone(w: real, v: real, q: real)
    requires q >= 0.0 && w >= v
    ensures w * q >= v * q
  {}

  lemma Distribute(v: real, a: real, b: real)
    ensures v * (a + b) == v * a + v * b
  {}

  lemma AddWeighted(s: real, v: real, a: real, w: real, q: real)
    requires s >= v * a && q >= 0.0 && w >= v
    ensures s + w * q >= v * (a + q)
  {
    Monotone(w, v, q);
    Distribute(v, a, q);
  }

  lemma AddBounded(s: real, v: real, a: real, w: real, p: real)
    requires s <= v * a && p >= 0.0 && w <= v
    ensures s + p * w <= v * (a + p)
  {
    Monotone(v, w, p);
    Distribute(v, a, p);
  }

  /** A weighted sum of payoffs that are all at least v. */
  lemma {:induction false} ColumnsAtLeast(m: Matrix, x: seq<real>, y: seq<real>, rows: nat, cols: nat, v: real)
    requires FourByFour(m) && rows <= 4 && cols <= 4 && |x| == 4 && cols <= |y|
    requires forall j :: 0 <= j < cols ==> y[j] >= 0.0 && Payoff(m, x, rows, j) >= v
    ensures ByColumns(m, x, y, rows, cols) >= v * PartSum(y, cols)
  {
    if cols > 0 {
      ColumnsAtLeast(m, x, y, rows, cols - 1, v);
      AddWeighted(ByColumns(m, x, y, rows, cols - 1), v, PartSum(y, cols - 1), Payoff(m, x, rows, cols - 1), y[cols - 1]);
    }
  }

  lemma {:induction false} RowsAtMost(m: Matrix, x: seq<real>, y: seq<real>, rows: nat, cols: nat, v: real)
    requires FourByFour(m) && rows <= 4 && cols <= 4 && rows <= |x| && cols <= |y|
    requires forall i :: 0 <= i < rows ==> x[i] >= 0.0 && Dot(m[i], y, cols) <= v
    ensures Expected(m, x, y, rows, cols) <= v * PartSum(x, rows)
  {
    hide Dot;
    if rows > 0 {
      RowsAtMost(m, x, y, rows - 1, cols, v);
      AddBounded(Expected(m, x, y, rows - 1, cols), v, PartSum(x, rows - 1), Dot(m[rows - 1], y, cols), x[rows - 1]);
    }
  }

  lemma {:induction false} PayoffOfColumn(m: Matrix, y: seq<real>, n: nat, i: nat)
    requires FourByFour(m) && |y| == 4 && n <= 4 && i < 4
    ensures Payoff(Transposed(m), y, n, i) == Dot(m[i], y, n)
  {
    if n > 0 {
      PayoffOfColumn(m, y, n - 1, i);
    }
  }

  /** A row strategy that holds up earns at least its value, less the slack, against every mixed reply. */
  lemma RowGuarantee(m: Matrix, x: seq<real>, rows: nat, cols: nat, v: real, q: seq<real>)
    requires FourByFour(m) && rows <= 4 && cols <= 4 && Guaranteed(Maximizer, m, rows, cols, x, v) && Distribution(q, cols)
    ensures Expected(m, x, q, rows, cols) >= v - TINY
  {
    hide Expected, ByColumns, Payoff, FourByFour, Bounded;
    Interchange(m, x, q, rows, cols);
    forall j | 0 <= j < cols ensures Payoff(m, x, rows, j) >= v - TINY {
      assert Acceptable(Maximizer, Payoff(m, x, rows, j), v);
    }
    ColumnsAtLeast(m, x, q, rows, cols, v - TINY);
  }

  /** A column strategy that holds up concedes at most its value and the slack. */
  lemma ColumnGuarantee(m: Matrix, y: seq<real>, rows: nat, cols: nat, v: real, p: seq<real>)
    requires FourByFour(m) && rows <= 4 && cols <= 4 && Guaranteed(Minimizer, Transposed(m), cols, rows, y, v)
    requires Distribution(p, rows)
    ensures Expected(m, p, y, rows, cols) <= v + TINY
  {
    hide Expected, Payoff, Dot;
    forall i | 0 <= i < rows ensures Dot(m[i], y, cols) <= v + TINY {
      assert Acceptable(Minimizer, Payoff(Transposed(m), y, cols, i), v);
      PayoffOfColumn(m, y, cols, i);
    }
    RowsAtMost(m, p, y, rows, cols, v + TINY);
  }

  /** The smallest of the first n entries. */
  ghost function Worst(row: seq<real>, n: nat): (w: real)
    requires 0 < n <= |row|
    ensures forall j :: 0 <= j < n ==> w <= row[j]
    ensures exists j :: 0 <= j < n && row[j] == w
  {
    if n == 1 then row[0]
    else if row[n - 1] < Worst(row, n - 1) then row[n - 1] else Worst(row, n - 1)
  }

  /** v is the largest of the first n rows' smallest entries. */
  ghost predicate IsMaximin(m: Matrix, rows: nat, cols: nat, v: real)
    requires FourByFour(m) && rows <= 4 && 0 < cols <= 4
  {
    && (exists i :: 0 <= i < rows && Worst(m[i], cols) == v)
    && (forall i :: 0 <= i < rows ==> Worst(m[i], cols) <= v)
  }

  /** Payoffs are smaller than the largest double in magnitude. */
  ghost predicate Bounded(m: Matrix) {
    FourByFour(m) && forall i, j :: 0 <= i < 4 && 0 <= j < 4 ==> -DBL_MAX < m[i][j] < DBL_MAX
  }

  function OneHot(i: nat): seq<real>
    requires i < 4
  {
    [0.0, 0.0, 0.0, 0.0][i := 1.0]
  }

  /** The worst entry of a row, and a column where it is attained up to closeness. */
  method WorstOfRow(m: Matrix, confidences: Matrix, i: nat, cols: nat) returns (worst: real, confidence: real, column: nat)
    requires Bounded(m) && FourByFour(confidences) && i < 4 && 0 < cols <= 4
    ensures worst == Worst(m[i], cols) && column < cols
    ensures IsClose(m[i][column], worst) && confidence == confidences[i][column]
    ensures forall j :: 0 <= j < cols && m[i][j] == worst ==> confidences[i][j] <= confidence
  {
    worst, confidence, column := DBL_MAX, 0.0, 0;
    for j := 0 to cols
      invariant j == 0 ==> worst == DBL_MAX
      invariant j > 0 ==> worst == Worst(m[i], j) && column < j
      invariant j > 0 ==> IsClose(m[i][column], worst) && confidence == confidences[i][column]
      invariant forall k :: 0 <= k < j && m[i][k] == worst ==> confidences[i][k] <= confidence
    {
      if m[i][j] < worst {
        worst, confidence, column := m[i][j], confidences[i][j], j;
        continue;
      }
      if IsClose(m[i][j], worst) && confidences[i][j] > confidence {
        confidence, column := confidences[i][j], j;
      }
    }
  }

  /** The pure choice: a row whose worst case is best up to closeness, and a column that is worst for it. */
  ghost predicate PureChoice(m: Matrix, confidences: Matrix, rows: nat, cols: nat, x: seq<real>, y: seq<real>,
                             v: real, confidence: real)
    requires FourByFour(m) && FourByFour(confidences) && rows <= 4 && 0 < cols <= 4
  {
    exists r, c :: 0 <= r < rows && 0 <= c < cols && x == OneHot(r) && y == OneHot(c)
                && IsClose(Worst(m[r], cols), v) && IsClose(m[r][c], Worst(m[r], cols)) && confidence == confidences[r][c]
  }

  /** The maximin in pure moves; ties up to closeness go to the more confident entry. */
  method PureMatrixValue(m: Matrix, confidences: Matrix, rows: int, cols: int, x: array<real>, y: array<real>)
    returns (value: real, confidence: real)
    requires Bounded(m) && FourByFour(confidences) && rows <= 4 && cols <= 4
    requires x.Length == y.Length == 4 && x != y
    modifies x, y
    ensures rows <= 0 || cols <= 0 ==> value == 0.5 && confidence == 0.0
    ensures rows > 0 && cols > 0 ==>
      IsMaximin(m, rows, cols, value) && PureChoice(m, confidences, rows, cols, x[..], y[..], value, confidence)
  {
    forall i | 0 <= i < 4 {
      x[i] := 0.0;
    }
    forall i | 0 <= i < 4 {
      y[i] := 0.0;
    }
    if rows <= 0 || cols <= 0 {
      return 0.5, 0.0;
    }
    var row, column;
    value, confidence, row, column := BestRow(m, confidences, rows, cols);
    x[row] := 1.0;
    y[column] := 1.0;
    assert x[..] == OneHot(row) && y[..] == OneHot(column);
  }

  lemma WorstIsBounded(m: Matrix, i: nat, cols: nat)
    requires Bounded(m) && i < 4 && 0 < cols <= 4
    ensures -DBL_MAX < Worst(m[i], cols)
  {
    var j :| 0 <= j < cols && m[i][j] == Worst(m[i], cols);
  }

  lemma MaximinExtends(m: Matrix, i: nat, cols: nat, best: real)
    requires FourByFour(m) && i < 4 && 0 < cols <= 4
    requires if i == 0 then best < Worst(m[i], cols) else IsMaximin(m, i, cols, best)
    ensures IsMaximin(m, i + 1, cols, if Worst(m[i], cols) > best then Worst(m[i], cols) else best)
  {
    hide Worst;
  }

  lemma CloseToItself(v: real)
    ensures IsClose(v, v)
  {}

  method BestRow(m: Matrix, confidences: Matrix, rows: nat, cols: nat)
    returns (best: real, confidence: real, row: nat, column: nat)
    requires Bounded(m) && FourByFour(confidences) && 0 < rows <= 4 && 0 < cols <= 4
    ensures IsMaximin(m, rows, cols, best) && row < rows && column < cols
    ensures IsClose(Worst(m[row], cols), best) && IsClose(m[row][column], Worst(m[row], cols))
    ensures confidence == confidences[row][column]
  {
    hide IsMaximin, Worst, IsClose;
    best, confidence, row, column := -DBL_MAX, 0.0, 0, 0;
    for i := 0 to rows
      invariant i == 0 ==> best == -DBL_MAX
      invariant i > 0 ==> IsMaximin(m, i, cols, best) && row < i && column < cols
      invariant i > 0 ==> IsClose(Worst(m[row], cols), best) && IsClose(m[row][column], Worst(m[row], cols))
      invariant i > 0 ==> confidence == confidences[row][column]
    {
      var worst, worstConfidence, worstColumn := WorstOfRow(m, confidences, i, cols);
      WorstIsBounded(m, i, cols);
      MaximinExtends(m, i, cols, best);
      CloseToItself(worst);
      if worst > best {
        best, confidence, row, column := worst, worstConfidence, i, worstColumn;
        continue;
      }
      if IsClose(worst, best) && worstConfidence > confidence {
        confidence, row, column := worstConfidence, i, worstColumn;
      }
    }
  }

  ghost predicate AllClose(m: Matrix, rows: int, cols: int)
    requires FourByFour(m) && rows <= 4 && cols <= 4
  {
    forall i, j :: 0 <= i < rows && 0 <= j < cols ==> IsClose(m[i][j], m[0][0])
  }

  method ValuesClose(m: Matrix, rows: int, cols: int) returns (close: bool)
    requires FourByFour(m) && rows <= 4 && cols <= 4
    ensures close <==> AllClose(m, rows, cols)
  {
    if rows <= 0 || cols <= 0 {
      return true;
    }
    var first := m[0][0];
    for i := 0 to rows
      invariant forall k, l :: 0 <= k < i && 0 <= l < cols ==> IsClose(m[k][l], first)
    {
      for j := 0 to cols
        invariant forall l :: 0 <= l < j ==> IsClose(m[i][l], first)
      {
        if !IsClose(m[i][j], first) {
          return false;
        }
      }
    }
    return true;
  }

  /** The mixed branch: both players' strategies hold up, and their values agree. */
  ghost predicate MixedSolution(m: Matrix, rows: nat, cols: nat, x: seq<real>, y: seq<real>, v: real, w: real)
    requires FourByFour(m) && rows <= 4 && cols <= 4
  {
    && Guaranteed(Maximizer, m, rows, cols, x, v) && Guaranteed(Minimizer, Transposed(m), cols, rows, y, w)
    && Magnitude(v - w) <= AGREEMENT
  }

  /** The value is within its slack of what each side can force, whatever mixture the other side plays. */
  lemma MixedValueIsSound(m: Matrix, rows: nat, cols: nat, x: seq<real>, y: seq<real>, v: real, w: real,
                          p: seq<real>, q: seq<real>)
    requires FourByFour(m) && rows <= 4 && cols <= 4 && MixedSolution(m, rows, cols, x, y, v, w)
    requires Distribution(p, rows) && Distribution(q, cols)
    ensures Expected(m, x, q, rows, cols) >= v - TINY
    ensures Expected(m, p, y, rows, cols) <= v + AGREEMENT + TINY
  {
    RowGuarantee(m, x, rows, cols, v, q);
    ColumnGuarantee(m, y, rows, cols, w, p);
  }

  /** The expectation of the confidences when both strategies are played. */
  method ExpectedConfidence(confidences: Matrix, rows: nat, cols: nat, x: array<real>, y: array<real>) returns (c: real)
    requires FourByFour(confidences) && rows <= 4 && cols <= 4 && x.Length == y.Length == 4
    ensures c == Expected(confidences, x[..], y[..], rows, cols)
  {
    hide Expected;
    c := 0.0;
    ExpectedNothing(confidences, x[..], y[..], cols);
    for i := 0 to rows
      invariant c == Expected(confidences, x[..], y[..], i, cols)
    {
      ghost var before := c;
      for j := 0 to cols
        invariant c == before + x[i] * Dot(confidences[i], y[..], j)
      {
        Product3(x[i], confidences[i][j], Dot(confidences[i], y[..], j), 0.0, y[j]);
        c := c + x[i] * y[j] * confidences[i][j];
      }
      ExpectedRow(confidences, x[..], y[..], i, cols);
    }
  }

  lemma ExpectedNothing(m: Matrix, x: seq<real>, y: seq<real>, cols: nat)
    requires FourByFour(m) && cols <= 4 && cols <= |y|
    ensures Expected(m, x, y, 0, cols) == 0.0
  {}

  lemma ExpectedRow(m: Matrix, x: seq<real>, y: seq<real>, i: nat, cols: nat)
    requires FourByFour(m) && i < 4 && cols <= 4 && |x| == 4 && cols <= |y|
    ensures Expected(m, x, y, i + 1, cols) == Expected(m, x, y, i, cols) + x[i] * Dot(m[i], y, cols)
  {}

  /** Both searches end with a strategy, and the two values agree. */
  ghost predicate Agree(row: Option<Strategy>, column: Option<Strategy>) {
    row.Some? && column.Some? && Magnitude(row.value.value - column.value.value) <= AGREEMENT
  }

  ghost predicate Mixes(m: Matrix, rows: nat, cols: nat)
    requires FourByFour(m) && rows <= 4 && cols <= 4
  {
    && !AllClose(m, rows, cols)
    && Agree(Best(Maximizer, m, rows, cols), Best(Minimizer, Transposed(m), cols, rows))
  }

  /** The strategies played and the value are those of the two searches. */
  ghost predicate PlaysBest(m: Matrix, rows: nat, cols: nat, x: seq<real>, y: seq<real>, v: real)
    requires FourByFour(m) && rows <= 4 && cols <= 4
  {
    var column := Best(Minimizer, Transposed(m), cols, rows);
    && Best(Maximizer, m, rows, cols) == Some(Strategy(x, v))
    && column.Some? && column.value.weights == y && MixedSolution(m, rows, cols, x, y, v, column.value.value)
  }

  /** Searches for both players, the column player only after the row player has a strategy. */
  method SearchBoth(m: Matrix, rows: nat, cols: nat, x: array<real>, y: array<real>) returns (agreed: bool, value: real)
    requires FourByFour(m) && rows <= 4 && cols <= 4 && x.Length == y.Length == 4 && x != y
    modifies x, y
    ensures agreed <==> Agree(Best(Maximizer, m, rows, cols), Best(Minimizer, Transposed(m), cols, rows))
    ensures agreed ==> PlaysBest(m, rows, cols, x[..], y[..], value)
  {
    hide Transposed, Guaranteed, Best;
    agreed := false;
    var found;
    found, value := BestStrategy(Maximizer, m, rows, cols, x);
    if found {
      var columnFound, columnValue := BestStrategy(Minimizer, Transposed(m), cols, rows, y);
      agreed := columnFound && Magnitude(value - columnValue) <= AGREEMENT;
    }
  }

  /**
   Solves the game. The mixed branch is taken exactly when the payoffs differ and the best
   strategies that pairs of supports offer to the two players agree on the value; otherwise
   the value is the pure maximin.
   */
  method SolveZeroSumMatrix(m: Matrix, confidences: Matrix, rows: int, cols: int, x: array<real>, y: array<real>)
    returns (value: real, confidence: real)
    requires FourByFour(m) && Bounded(m) && FourByFour(confidences) && rows <= 4 && cols <= 4
    requires x.Length == y.Length == 4 && x != y
    modifies x, y
    ensures rows <= 0 || cols <= 0 ==> value == 0.5 && confidence == 0.0
    ensures rows > 0 && cols > 0 && Mixes(m, rows, cols) ==>
      PlaysBest(m, rows, cols, x[..], y[..], value) && confidence == Expected(confidences, x[..], y[..], rows, cols)
    ensures rows > 0 && cols > 0 && !Mixes(m, rows, cols) ==>
      IsMaximin(m, rows, cols, value) && PureChoice(m, confidences, rows, cols, x[..], y[..], value, confidence)
  {
    hide IsMaximin, Bounded, PureChoice, Transposed, AllClose, PlaysBest, Best, Expected, Agree;
    var close := ValuesClose(m, rows, cols);
    if close {
      value, confidence := PureMatrixValue(m, confidences, rows, cols, x, y);
      return;
    }
    if rows > 0 && cols > 0 {
      var agreed, rowValue := SearchBoth(m, rows, cols, x, y);
      if agreed {
        confidence := ExpectedConfidence(confidences, rows, cols, x, y);
        value := rowValue;
        return;
      }
    }
    value, confidence := PureMatrixValue(m, confidences, rows, cols, x, y);
  }
}
