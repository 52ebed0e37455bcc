/**
 Any interleaving of make and unmake: the mutable board behaves as a stack of immutable
 boards, and a balanced script leaves it exactly as it was.
 */
module Interleavings {
  import opened Boards
  import opened SearchStates

  datatype Operation = Make(commands: seq<Command>) | Unmake

  /** The stack after one operation; the bottom board cannot be popped. */
  ghost function Performed(boards: seq<Board>, op: Operation): (r: seq<Board>)
    requires boards != []
    ensures r != [] && r[0] == boards[0]
  {
    match op
    case Make(commands) => boards + [Step(boards[|boards| - 1], commands)]
    case Unmake => if |boards| > 1 then boards[..|boards| - 1] else boards
  }

  ghost function StackAfter(boards: seq<Board>, script: seq<Operation>): (r: seq<Board>)
    requires boards != []
    ensures r != [] && r[0] == boards[0]
    decreases |script|
  {
    if script == [] then boards else StackAfter(Performed(boards, script[0]), script[1..])
  }

  /** Performs a script on the mutable board. */
  method Perform(state: CoreSearchState, script: seq<Operation>)
    requires state.Valid()
    modifies state.Repr
    ensures state.Valid() && fresh(state.Repr - old(state.Repr))
    ensures state.boards == StackAfter(old(state.boards), script)
  {
    hide Step, CoreSearchState.Valid;
    for k := 0 to |script|
      invariant state.Valid() && fresh(state.Repr - old(state.Repr)) && state.boards != []
      invariant StackAfter(state.boards, script[k..]) == StackAfter(old(state.boards), script)
    {
      assert script[k..][0] == script[k] && script[k..][1..] == script[k + 1..];
      match script[k] {
        case Make(commands) => var _ := state.MakeMovesDetailed(commands, 0);
        case Unmake => var _ := state.Unmake();
      }
    }
  }

  /** A script that never unmakes more than it has made, and unmakes all of it. */
  ghost predicate Balanced(script: seq<Operation>, open: nat)
    decreases |script|
  {
    if script == [] then open == 0
    else
      match script[0]
      case Make(_) => Balanced(script[1..], open + 1)
      case Unmake => open > 0 && Balanced(script[1..], open - 1)
  }

  /** Whatever is made and unmade in between, a balanced script restores every board of the stack. */
  lemma {:induction false} BalancedRestores(boards: seq<Board>, made: seq<Board>, script: seq<Operation>)
    requires boards != [] && Balanced(script, |made|)
    ensures StackAfter(boards + made, script) == boards
    decreases |script|
  {
    hide Step;
    if script == [] {
      assert boards + made == boards;
    } else {
      match script[0]
      case Make(commands) =>
        var all := boards + made;
        var next := Step(all[|all| - 1], commands);
        assert all + [next] == boards + (made + [next]);
        BalancedRestores(boards, made + [next], script[1..]);
      case Unmake =>
        assert (boards + made)[..|boards + made| - 1] == boards + made[..|made| - 1];
        BalancedRestores(boards, made[..|made| - 1], script[1..]);
    }
  }

  /** Each board has no more snakes and no more food than the board below it. */
  ghost predicate Shrinking(boards: seq<Board>) {
    forall i {:trigger boards[i + 1]} :: 0 <= i < |boards| - 1 ==>
      |boards[i + 1].snakes| <= |boards[i].snakes| && |boards[i + 1].food| <= |boards[i].food|
  }

  /** Counts only shrink going up the stack, so every board's buffers are large enough for all boards above it. */
  lemma {:induction false} StackShrinks(boards: seq<Board>, script: seq<Operation>)
    requires boards != [] && Shrinking(boards)
    ensures Shrinking(StackAfter(boards, script))
    decreases |script|
  {
    if script != [] {
      StackShrinks(Performed(boards, script[0]), script[1..]);
    }
  }
}
