/**
 Enumerating joint moves: the combinations of one option per snake, numbered with the
 first snake's option varying fastest.
 */
module JointMoves {
  import opened Grid
  import opened Boards
  import opened Limits

  type Options = seq<seq<Move>>

  ghost predicate AllOffered(options: Options) {
    forall i :: 0 <= i < |options| ==> options[i] != []
  }

  /** One of each snake's options. */
  ghost predicate IsJoint(options: Options, moves: seq<Move>) {
    |moves| == |options| && forall i :: 0 <= i < |moves| ==> moves[i] in options[i]
  }

  /** How many combinations there are of the options from i on. */
  function Combinations(options: Options, i: nat): nat
    requires i <= |options|
    decreases |options| - i
  {
    if i == |options| then 1 else Combinations(options, i + 1) * |options[i]|
  }

  /** The options from i on that a number stands for. */
  function Decode(options: Options, i: nat, remainder: nat): (moves: seq<Move>)
    requires i <= |options| && forall k :: 0 <= k < |options| ==> options[k] != []
    ensures |moves| == |options| - i
    decreases |options| - i
  {
    if i == |options| then []
    else [options[i][remainder % |options[i]|]] + Decode(options, i + 1, remainder / |options[i]|)
  }

  lemma {:induction false} DecodeIsJoint(options: Options, i: nat, remainder: nat)
    requires i <= |options| && AllOffered(options)
    ensures IsJoint(options[i..], Decode(options, i, remainder))
    decreases |options| - i
  {
    if i < |options| {
      DecodeIsJoint(options, i + 1, remainder / |options[i]|);
      assert options[i..] == [options[i]] + options[i + 1..];
    }
  }

  /** Every combination has a number below the count. */
  lemma {:induction false} EveryJointIsDecoded(options: Options, i: nat, moves: seq<Move>) returns (number: nat)
    requires i <= |options| && AllOffered(options) && IsJoint(options[i..], moves)
    ensures number < Combinations(options, i) && Decode(options, i, number) == moves
    decreases |options| - i
  {
    if i == |options| {
      number := 0;
    } else {
      assert options[i..][0] == options[i] && options[i..][1..] == options[i + 1..];
      var rest := EveryJointIsDecoded(options, i + 1, moves[1..]);
      var n := |options[i]|;
      var k: nat :| k < n && options[i][k] == moves[0];
      number := rest * n + k;
      CellUnique(n, number, k, rest);
      MulMonotone(rest + 1, Combinations(options, i + 1), n);
      MulAdd(rest, 1, n);
      assert moves == [moves[0]] + moves[1..];
    }
  }

  lemma DecodeStep(options: Options, i: nat, remainder: nat, before: seq<Move>)
    requires i < |options| && AllOffered(options)
    ensures 0 <= remainder % |options[i]| < |options[i]| && 0 <= remainder / |options[i]|
    ensures before + Decode(options, i, remainder)
         == before + [options[i][remainder % |options[i]|]] + Decode(options, i + 1, remainder / |options[i]|)
  {}

  /** Reads the combination with the given number off digit by digit. */
  method DecodeMoves(options: Options, combo: nat) returns (moves: seq<Move>)
    requires AllOffered(options)
    ensures moves == Decode(options, 0, combo)
  {
    hide Decode;
    moves := [];
    var remainder: nat := combo;
    for i := 0 to |options|
      invariant moves + Decode(options, i, remainder) == Decode(options, 0, combo)
    {
      DecodeStep(options, i, remainder, moves);
      moves := moves + [options[i][remainder % |options[i]|]];
      remainder := remainder / |options[i]|;
    }
    DecodeEnds(options, remainder, moves);
  }

  lemma DecodeEnds(options: Options, remainder: nat, moves: seq<Move>)
    requires AllOffered(options)
    ensures moves + Decode(options, |options|, remainder) == moves
  {}

  lemma Regroup(a: nat, b: nat, c: nat)
    ensures a * (b * c) == a * c * b
  {}

  lemma PositiveProduct(a: nat, b: nat)
    requires a > 0 && b > 0
    ensures a * b >= a
  {}

  lemma {:induction false} CombinationsPositive(options: Options, i: nat)
    requires i <= |options| && AllOffered(options)
    ensures Combinations(options, i) > 0
    decreases |options| - i
  {
    if i < |options| {
      CombinationsPositive(options, i + 1);
      PositiveProduct(Combinations(options, i + 1), |options[i]|);
    }
  }

  /** The number of combinations, unless it does not fit an int. */
  method CountCombinations(options: Options) returns (total: nat, fits: bool)
    requires AllOffered(options)
    ensures fits ==> total == Combinations(options, 0)
    ensures !fits ==> Combinations(options, 0) > INT_MAX
  {
    total := 1;
    for i := 0 to |options|
      invariant total > 0 && total * Combinations(options, i) == Combinations(options, 0)
    {
      CombinationsPositive(options, i + 1);
      Regroup(total, Combinations(options, i + 1), |options[i]|);
      if total > INT_MAX / |options[i]| {
        Overflows(total, |options[i]|, Combinations(options, i + 1));
        return total, false;
      }
      PositiveProduct(total, |options[i]|);
      total := total * |options[i]|;
    }
    fits := true;
  }

  lemma Overflows(total: nat, n: nat, rest: nat)
    requires n > 0 && rest > 0 && total > INT_MAX / n
    ensures total * n * rest > INT_MAX
  {
    var q := INT_MAX / n;
    MulMonotone(q + 1, total, n);
    MulAdd(q, 1, n);
    CellDecompose(n, INT_MAX);
    PositiveProduct(total * n, rest);
  }
}
