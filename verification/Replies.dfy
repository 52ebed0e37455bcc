/**
 Why the prover may ignore some replies: a command that is left out steps onto the
 snake's own neck and kills it, so it can never force the other snake's loss.
 */
module Replies {
  import opened Grid
  import opened Boards
  import opened Outcomes
  import opened ForcedLoss

  ghost predicate UniqueIds(snakes: seq<Snake>) {
    forall i, j :: 0 <= i < j < |snakes| ==> snakes[i].id != snakes[j].id
  }

  lemma StepKeepsIds(b: Board, commands: seq<Command>)
    requires UniqueIds(b.snakes)
    ensures UniqueIds(Step(b, commands).snakes)
  {}

  lemma LeftOutCommandKills(b: Board, commands: seq<Command>, i: nat)
    requires i < |b.snakes| && b.snakes[i].body != []
    requires MoveFor(b.snakes[i].id, commands) in DIRECTIONS
    requires !Commandable(b, b.snakes[i], MoveFor(b.snakes[i].id, commands))
    ensures !Survives(Movers(b, commands), i)
  {
    var ms := Movers(b, commands);
    assert ms[i].snake.body[2] == b.snakes[i].body[1];
    assert BodyHit(ms, i, i);
  }

  lemma DeadIsNotAlive(b: Board, commands: seq<Command>, i: nat)
    requires UniqueIds(b.snakes) && i < |b.snakes| && !Survives(Movers(b, commands), i)
    ensures !Alive(Step(b, commands), b.snakes[i].id)
  {}

  lemma LeftOutReplyNeverForces(b: Board, me: string, opponent: string, own: Move, reply: Move, depth: nat)
    requires UniqueIds(b.snakes) && me != opponent && Classify(b, me, opponent) == Unresolved
    requires reply in DIRECTIONS && reply !in CommandMoves(b, opponent)
    ensures !ForcesLoss(Joint(b, me, opponent, own, reply), me, opponent, depth)
  {
    var i := FindSnake(b.snakes, opponent);
    var commands := [Command(me, own), Command(opponent, reply)];
    CommandMovesMeaning(b, opponent, reply);
    assert MoveFor(opponent, commands) == reply by {
      assert commands[1..][0] == Command(opponent, reply);
    }
    LeftOutCommandKills(b, commands, i);
    DeadIsNotAlive(b, commands, i);
  }

  /** The same game with all four replies. */
  ghost predicate ForcesLossByAnyReply(b: Board, me: string, opponent: string, depth: nat)
    decreases depth
  {
    match Classify(b, me, opponent)
    case Loss => true
    case Win => false
    case Draw => false
    case Unresolved =>
      && depth > 0
      && forall own :: own in DIRECTIONS ==>
           exists reply :: reply in DIRECTIONS
                        && ForcesLossByAnyReply(Joint(b, me, opponent, own, reply), me, opponent, depth - 1)
  }

  /** Searching only the command moves decides the game with all four replies. */
  lemma {:induction false} PruningIsLossless(b: Board, me: string, opponent: string, depth: nat)
    requires UniqueIds(b.snakes) && me != opponent
    ensures ForcesLossByAnyReply(b, me, opponent, depth) <==> ForcesLoss(b, me, opponent, depth)
    decreases depth
  {
    hide Step, CommandMoves;
    if Classify(b, me, opponent) == Unresolved && depth > 0 {
      forall own, reply | own in DIRECTIONS && reply in DIRECTIONS
        ensures ForcesLossByAnyReply(Joint(b, me, opponent, own, reply), me, opponent, depth - 1)
           <==> reply in CommandMoves(b, opponent) && ForcesLoss(Joint(b, me, opponent, own, reply), me, opponent, depth - 1)
      {
        StepKeepsIds(b, [Command(me, own), Command(opponent, reply)]);
        PruningIsLossless(Joint(b, me, opponent, own, reply), me, opponent, depth - 1);
        if reply !in CommandMoves(b, opponent) {
          LeftOutReplyNeverForces(b, me, opponent, own, reply, depth - 1);
        }
      }
      forall reply | reply in CommandMoves(b, opponent) ensures reply in DIRECTIONS {
        CommandMovesMeaning(b, opponent, reply);
      }
    }
  }
}
