/**
 Head-to-head resolution. Both implementations kill snakes pair by pair, in index
 order, while skipping snakes already dead. These lemmas show that the order does
 not matter: the pass ends exactly when every snake that does not survive is dead.
 */
module HeadToHead {
  import opened Boards

  /** The pair (x, y) has had its effect on the death flags. */
  ghost predicate PairDone(ms: seq<Mover>, dead: seq<bool>, x: nat, y: nat)
    requires |dead| == |ms| && x < |ms| && y < |ms|
  {
    Standing(ms, x) && Standing(ms, y) && ms[x].head == ms[y].head ==>
      && (ms[y].snake.EffectiveLength() >= ms[x].snake.EffectiveLength() ==> dead[x])
      && (ms[x].snake.EffectiveLength() >= ms[y].snake.EffectiveLength() ==> dead[y])
  }

  /** x was killed head to head by a mover below n. */
  ghost predicate KilledBelow(ms: seq<Mover>, x: nat, n: nat)
    requires x < |ms|
  {
    exists w :: 0 <= w < n && w < |ms| && Outmatched(ms, x, w)
  }

  /**
   The state of the pass when every pair below row has had its effect, and so have
   the pairs of row with movers below col.
   */
  ghost predicate PassAt(ms: seq<Mover>, dead: seq<bool>, row: nat, col: nat) {
    && |dead| == |ms|
    && (forall x :: 0 <= x < |ms| && !Standing(ms, x) ==> dead[x])
    && (forall x :: 0 <= x < |ms| && dead[x] && Standing(ms, x) ==> LosesHeadToHead(ms, x))
    && (forall x :: row < x < |ms| && dead[x] && Standing(ms, x) ==> KilledBelow(ms, x, row + 1))
    && (forall x :: col <= x < |ms| && row < x && dead[x] && Standing(ms, x) ==> KilledBelow(ms, x, row))
    && (col == row + 1 && row < |ms| && dead[row] && Standing(ms, row) ==> KilledBelow(ms, row, row))
    && (forall x, y :: 0 <= x < y < |ms| && (x < row || (x == row && y < col)) ==> PairDone(ms, dead, x, y))
  }

  lemma PassStarts(ms: seq<Mover>, dead: seq<bool>)
    requires |dead| == |ms| && forall x :: 0 <= x < |ms| ==> (dead[x] <==> !Standing(ms, x))
    ensures PassAt(ms, dead, 0, 1)
  {}

  /** A row may be skipped when its mover is dead already: its killer settled the row's pairs. */
  lemma PassSkipsRow(ms: seq<Mover>, dead: seq<bool>, row: nat)
    requires row < |ms| && PassAt(ms, dead, row, row + 1) && dead[row]
    ensures PassAt(ms, dead, row + 1, row + 2)
  {
    forall y | row < y < |ms| ensures PairDone(ms, dead, row, y) {
      if Standing(ms, row) {
        var w :| 0 <= w < row && w < |ms| && Outmatched(ms, row, w);
        assert PairDone(ms, dead, w, y);
      }
    }
  }

  lemma PassNextRow(ms: seq<Mover>, dead: seq<bool>, row: nat)
    requires row < |ms| && PassAt(ms, dead, row, |ms|)
    ensures PassAt(ms, dead, row + 1, row + 2)
  {}

  /** A pair may be skipped when its second mover is dead or stands elsewhere. */
  lemma PassSkipsPair(ms: seq<Mover>, dead: seq<bool>, row: nat, col: nat)
    requires row < col < |ms| && PassAt(ms, dead, row, col)
    requires dead[col] || ms[row].head != ms[col].head
    ensures PassAt(ms, dead, row, col + 1)
  {
    if dead[col] && Standing(ms, col) {
      var w :| 0 <= w < row && w < |ms| && Outmatched(ms, col, w);
      assert PairDone(ms, dead, w, row);
      assert PairDone(ms, dead, row, col);
    }
  }

  /** The outcome of comparing two movers on one cell. */
  function Compared(dead: seq<bool>, left: int, right: int, row: nat, col: nat): (r: seq<bool>)
    requires row < |dead| && col < |dead|
    ensures |r| == |dead|
  {
    if left > right then dead[col := true]
    else if right > left then dead[row := true]
    else dead[row := true][col := true]
  }

  lemma PassComparesPair(ms: seq<Mover>, dead: seq<bool>, row: nat, col: nat)
    requires row < col < |ms| && PassAt(ms, dead, row, col)
    requires Standing(ms, row) && !dead[col] && ms[row].head == ms[col].head
    ensures PassAt(ms, Compared(dead, ms[row].snake.EffectiveLength(), ms[col].snake.EffectiveLength(), row, col), row, col + 1)
  {
    var after := Compared(dead, ms[row].snake.EffectiveLength(), ms[col].snake.EffectiveLength(), row, col);
    assert Standing(ms, col);
    assert after[row] && !dead[row] ==> Outmatched(ms, row, col);
    assert after[col] ==> Outmatched(ms, col, row);
    forall x, y | 0 <= x < y < |ms| && (x < row || (x == row && y < col + 1))
      ensures PairDone(ms, after, x, y)
    {
      assert (x == row && y == col) || PairDone(ms, dead, x, y);
    }
  }

  /** When all rows are done, exactly the survivors are alive. */
  lemma PassEnds(ms: seq<Mover>, dead: seq<bool>)
    requires PassAt(ms, dead, |ms|, |ms| + 1)
    ensures forall x :: 0 <= x < |ms| ==> (dead[x] <==> !Survives(ms, x))
  {
    forall x | 0 <= x < |ms| && Standing(ms, x) && LosesHeadToHead(ms, x) ensures dead[x] {
      var j :| 0 <= j < |ms| && Outmatched(ms, x, j);
      assert if x < j then PairDone(ms, dead, x, j) else PairDone(ms, dead, j, x);
    }
  }
}
