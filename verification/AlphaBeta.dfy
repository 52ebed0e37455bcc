/**
 Alpha-beta search as a function of an ordered game tree. Each node is visited at most
 once, so a tree in the order of its visits stands for every way of ordering moves.
 */
module AlphaBeta {
  import opened Grid
  import opened Boards
  import opened Outcomes
  import opened Limits

  const MAX_DEPTH: int := 32
  const MAX_STEP: real := 1000.0

  datatype Value = Value(score: real, outcome: Outcome, distance: nat, bound: Bound)

  datatype Weights = Weights(win: real, loss: real)

  /** A position: decided, evaluated as it stands, or with own moves in the order they are tried. */
  datatype Node = Terminal(outcome: Outcome) | Quiet(score: real) | Choice(branches: seq<Branch>)

  /** An own move, the verdict of the tie-break on it, and the joint replies in the order they are tried. */
  datatype Branch = Branch(move: Move, preferred: bool, replies: seq<Reply>)

  datatype Reply = Reply(moves: seq<Move>, node: Node)

  function Unsettled(score: real): Value { Value(score, Unresolved, 0, Exact) }

  function SurvivalStep(w: Weights): real {
    var gap := w.win - w.loss;
    if gap <= 0.0 then 0.0
    else
      var step := gap / (4.0 * (MAX_DEPTH + 1) as real);
      if step < MAX_STEP then step else MAX_STEP
  }

  function TerminalValue(w: Weights, outcome: Outcome, distance: nat): Value {
    var score := match outcome
      case Win => w.win - SurvivalStep(w) * distance as real
      case Loss => w.loss + SurvivalStep(w) * distance as real
      case _ => (w.win + w.loss) / 2.0;
    Value(score, outcome, distance, Exact)
  }

  /** A child's value one turn earlier: decided outcomes are scored again for the longer distance. */
  function Backup(w: Weights, child: Value): Value {
    if child.outcome == Unresolved then child
    else
      var distance := if child.distance < UINT16_MAX then child.distance + 1 else UINT16_MAX;
      TerminalValue(w, child.outcome, distance).(bound := child.bound)
  }

  function Least(a: real, b: real): real { if a < b then a else b }

  function Most(a: real, b: real): real { if a > b then a else b }

  /** The worst reply to one own move, the first k looked at; cut tells that the rest did not matter. */
  function WorstReply(w: Weights, replies: seq<Reply>, k: nat, alpha: real, beta: real, worst: Value): (r: (Value, bool))
    requires k <= |replies|
    decreases replies, 1, |replies| - k
  {
    if k == |replies| then (worst, false)
    else
      var value := Backup(w, Search(w, replies[k].node, alpha, Least(worst.score, beta)));
      var next := if value.score < worst.score then value else worst;
      if next.score <= alpha then (next, true) else WorstReply(w, replies, k + 1, alpha, beta, next)
  }

  predicate Replaces(branch: Branch, worst: Value, best: Value) {
    worst.score > best.score || (worst.score == best.score && branch.preferred)
  }

  /** The best own move from the i-th on, with the values recorded for the moves tried. */
  function BestMove(w: Weights, branches: seq<Branch>, i: nat, alpha: real, beta: real, best: Value): (r: (Value, seq<Value>))
    requires i <= |branches|
    decreases branches, 2, |branches| - i
  {
    if i == |branches| then (best, [])
    else
      var (worst, cut) := WorstReply(w, branches[i].replies, 0, alpha, beta, Unsettled(DBL_MAX));
      var recorded := worst.(bound := if cut then UpperBound else Exact);
      var next := if Replaces(branches[i], worst, best) then worst else best;
      if Most(alpha, next.score) >= beta then (next, [recorded])
      else
        var (last, rest) := BestMove(w, branches, i + 1, Most(alpha, next.score), beta, next);
        (last, [recorded] + rest)
  }

  function BoundOf(score: real, alpha: real, beta: real): Bound {
    if score <= alpha then UpperBound else if score >= beta then LowerBound else Exact
  }

  function Search(w: Weights, t: Node, alpha: real, beta: real): Value
    decreases t, 3
  {
    match t
    case Terminal(outcome) => TerminalValue(w, outcome, 0)
    case Quiet(score) => Unsettled(score)
    case Choice(branches) =>
      var best := BestMove(w, branches, 0, alpha, beta, Unsettled(-DBL_MAX)).0;
      best.(bound := BoundOf(best.score, alpha, beta))
  }

  predicate IsFinite(x: real) { -DBL_MAX < x < DBL_MAX }

  /** The score of the outcome does not depend on how far away it is. */
  predicate Lasts(w: Weights, outcome: Outcome) {
    outcome == Draw || (outcome != Unresolved && SurvivalStep(w) == 0.0)
  }

  /**
   Every choice has moves, every move replies, and scores are finite. Decided positions two or
   more turns below the root have lasting scores; ply is the distance of this node from there.
   */
  ghost predicate Steady(w: Weights, t: Node, ply: nat)
    decreases t
  {
    match t
    case Terminal(outcome) =>
      outcome != Unresolved && (ply <= 1 || Lasts(w, outcome)) && IsFinite(TerminalValue(w, outcome, ply).score)
    case Quiet(score) => IsFinite(score)
    case Choice(branches) => branches != [] && forall i :: 0 <= i < |branches| ==> SteadyBranch(w, branches[i], ply)
  }

  ghost predicate SteadyBranch(w: Weights, b: Branch, ply: nat)
    decreases b
  {
    b.replies != [] && SteadyReplies(w, b.replies, |b.replies|, ply + 1)
  }

  /** The first n replies, whose nodes are at the given distance. */
  ghost predicate SteadyReplies(w: Weights, replies: seq<Reply>, n: nat, ply: nat)
    requires n <= |replies|
    decreases replies, 0
  {
    forall k :: 0 <= k < n ==> Steady(w, replies[k].node, ply)
  }

  /** Against every reply, some choice of own moves reaches at least v; outcomes count at their distance from the root. */
  ghost predicate Forces(w: Weights, t: Node, ply: nat, v: real)
    decreases t
  {
    match t
    case Terminal(outcome) => TerminalValue(w, outcome, ply).score >= v
    case Quiet(score) => score >= v
    case Choice(branches) => exists i :: 0 <= i < |branches| && BranchForces(w, branches[i], ply, v)
  }

  ghost predicate BranchForces(w: Weights, b: Branch, ply: nat, v: real)
    decreases b
  {
    forall k :: 0 <= k < |b.replies| ==> Forces(w, b.replies[k].node, ply + 1, v)
  }

  /** The max-min value of a tree. */
  ghost function Maximin(w: Weights, t: Node, ply: nat): (v: real)
    requires Steady(w, t, ply)
    ensures IsFinite(v)
    decreases t
  {
    match t
    case Terminal(outcome) => TerminalValue(w, outcome, ply).score
    case Quiet(score) => score
    case Choice(branches) => MaxOver(w, branches, |branches|, ply)
  }

  ghost function MaxOver(w: Weights, branches: seq<Branch>, n: nat, ply: nat): (v: real)
    requires 0 < n <= |branches| && forall i :: 0 <= i < n ==> SteadyBranch(w, branches[i], ply)
    ensures IsFinite(v)
    decreases branches, n
  {
    assert SteadyBranch(w, branches[n - 1], ply);
    var last := MinOver(w, branches[n - 1].replies, |branches[n - 1].replies|, ply + 1);
    if n == 1 then last else Most(MaxOver(w, branches, n - 1, ply), last)
  }

  ghost function MinOver(w: Weights, replies: seq<Reply>, n: nat, ply: nat): (v: real)
    requires 0 < n <= |replies| && SteadyReplies(w, replies, n, ply)
    ensures IsFinite(v)
    decreases replies, n
  {
    if n == 1 then Maximin(w, replies[0].node, ply)
    else Least(MinOver(w, replies, n - 1, ply), Maximin(w, replies[n - 1].node, ply))
  }

  /** r is v inside the window, an upper bound at or below it and a lower bound at or above it. */
  ghost predicate Sound(v: real, alpha: real, beta: real, r: real) {
    && (r <= alpha ==> v <= r)
    && (r >= beta ==> v >= r)
    && (alpha < r < beta ==> r == v)
  }

  /** Every minimum is a floor for what the replies allow, and is attained. */
  lemma {:induction false} MinForces(w: Weights, replies: seq<Reply>, n: nat, ply: nat, v: real)
    requires 0 < n <= |replies| && SteadyReplies(w, replies, n, ply)
    ensures v <= MinOver(w, replies, n, ply) <==> forall k :: 0 <= k < n ==> Forces(w, replies[k].node, ply, v)
    decreases replies, n
  {
    MaximinForces(w, replies[n - 1].node, ply, v);
    if n > 1 {
      MinForces(w, replies, n - 1, ply, v);
    }
  }

  lemma {:induction false} MaxForces(w: Weights, branches: seq<Branch>, n: nat, ply: nat, v: real)
    requires 0 < n <= |branches| && forall i :: 0 <= i < n ==> SteadyBranch(w, branches[i], ply)
    ensures v <= MaxOver(w, branches, n, ply) <==> exists i :: 0 <= i < n && BranchForces(w, branches[i], ply, v)
    decreases branches, n
  {
    var last := branches[n - 1];
    assert SteadyBranch(w, last, ply);
    MinForces(w, last.replies, |last.replies|, ply + 1, v);
    if n > 1 {
      MaxForces(w, branches, n - 1, ply, v);
    }
  }

  /** The max-min value is the most the own moves can force. */
  lemma {:induction false} MaximinForces(w: Weights, t: Node, ply: nat, v: real)
    requires Steady(w, t, ply)
    ensures Forces(w, t, ply, v) <==> v <= Maximin(w, t, ply)
    decreases t
  {
    if t.Choice? {
      MaxForces(w, t.branches, |t.branches|, ply, v);
    }
  }

  /** Scoring the value again for a longer distance does not change it. */
  predicate Lasting(w: Weights, v: Value) {
    v.outcome == Unresolved || (Lasts(w, v.outcome) && v.score == TerminalValue(w, v.outcome, v.distance).score)
  }

  lemma LastingScore(w: Weights, outcome: Outcome, d: nat, e: nat)
    requires Lasts(w, outcome)
    ensures TerminalValue(w, outcome, d).score == TerminalValue(w, outcome, e).score
  {}

  lemma BackupKeeps(w: Weights, v: Value)
    requires Lasting(w, v)
    ensures Lasting(w, Backup(w, v)) && Backup(w, v).score == v.score
  {
    hide SurvivalStep, TerminalValue;
    if v.outcome != Unresolved {
      LastingScore(w, v.outcome, v.distance, Backup(w, v).distance);
      Rescored(w, v);
    }
  }

  lemma Rescored(w: Weights, v: Value)
    requires v.outcome != Unresolved
    ensures var r := Backup(w, v);
            r.outcome == v.outcome && r.score == TerminalValue(w, v.outcome, r.distance).score
  {}

  /** The replies looked at so far: inside the window the minimum is known, above it a lower bound. */
  ghost predicate RepliesSeen(w: Weights, replies: seq<Reply>, k: nat, ply: nat, alpha: real, beta: real, worst: real)
    requires k <= |replies| && SteadyReplies(w, replies, |replies|, ply)
  {
    && alpha < worst
    && (k == 0 ==> worst == DBL_MAX)
    && (k > 0 ==> worst < DBL_MAX && (worst < beta ==> worst == MinOver(w, replies, k, ply))
                  && (worst >= beta ==> worst <= MinOver(w, replies, k, ply)))
  }

  lemma {:induction false} MinShrinks(w: Weights, replies: seq<Reply>, k: nat, n: nat, ply: nat)
    requires 0 < k <= n <= |replies| && SteadyReplies(w, replies, |replies|, ply)
    ensures MinOver(w, replies, n, ply) <= MinOver(w, replies, k, ply)
  {
    if k < n {
      MinShrinks(w, replies, k, n - 1, ply);
    }
  }

  ghost predicate Window(alpha: real, beta: real) {
    -DBL_MAX <= alpha < beta <= DBL_MAX
  }

  /** A child's search in the narrowed window, scored one turn earlier. */
  lemma {:induction false} ReplySound(w: Weights, replies: seq<Reply>, k: nat, ply: nat, alpha: real, beta: real, worst: Value)
    requires k < |replies| && SteadyReplies(w, replies, |replies|, ply) && ply > 0 && Window(alpha, beta)
    requires RepliesSeen(w, replies, k, ply, alpha, beta, worst.score)
    ensures var value := Backup(w, Search(w, replies[k].node, alpha, Least(worst.score, beta)));
            && IsFinite(value.score) && (ply > 1 ==> Lasting(w, value))
            && Sound(Maximin(w, replies[k].node, ply), alpha, Least(worst.score, beta), value.score)
    decreases replies, 0
  {
    hide SurvivalStep, TerminalValue;
    var node := replies[k].node;
    assert Steady(w, node, ply);
    if node.Terminal? {
      TerminalOnce(w, node.outcome);
      if ply > 1 {
        LastingScore(w, node.outcome, ply, 1);
      }
    } else {
      SearchSound(w, node, ply, alpha, Least(worst.score, beta));
      BackupKeeps(w, Search(w, node, alpha, Least(worst.score, beta)));
    }
  }

  lemma TerminalOnce(w: Weights, outcome: Outcome)
    requires outcome != Unresolved
    ensures Backup(w, TerminalValue(w, outcome, 0)) == TerminalValue(w, outcome, 1)
    ensures TerminalValue(w, outcome, 0).outcome == TerminalValue(w, outcome, 1).outcome == outcome
    ensures TerminalValue(w, outcome, 1).distance == 1
  {}

  lemma {:induction false} WorstReplySound(w: Weights, replies: seq<Reply>, k: nat, ply: nat, alpha: real, beta: real, worst: Value)
    requires k <= |replies| && replies != [] && SteadyReplies(w, replies, |replies|, ply) && ply > 0
    requires Window(alpha, beta)
    requires RepliesSeen(w, replies, k, ply, alpha, beta, worst.score) && (ply > 1 ==> Lasting(w, worst))
    ensures var (r, cut) := WorstReply(w, replies, k, alpha, beta, worst);
            && (ply > 1 ==> Lasting(w, r)) && IsFinite(r.score)
            && Sound(MinOver(w, replies, |replies|, ply), alpha, beta, r.score)
            && (cut <==> r.score <= alpha)
    decreases replies, 1, |replies| - k
  {
    hide Lasting, Backup, Search;
    if k < |replies| {
      ReplySound(w, replies, k, ply, alpha, beta, worst);
      var value := Backup(w, Search(w, replies[k].node, alpha, Least(worst.score, beta)));
      var next := if value.score < worst.score then value else worst;
      if next.score <= alpha {
        MinShrinks(w, replies, k + 1, |replies|, ply);
      } else {
        WorstReplySound(w, replies, k + 1, ply, alpha, beta, next);
      }
    }
  }

  /** The own moves tried so far: above the window's floor the maximum is known, at or below it an upper bound. */
  ghost predicate BranchesSeen(w: Weights, branches: seq<Branch>, i: nat, ply: nat, floor: real, alpha: real, best: real)
    requires i <= |branches| && forall j :: 0 <= j < |branches| ==> SteadyBranch(w, branches[j], ply)
  {
    && alpha == Most(floor, best)
    && (i == 0 ==> best == -DBL_MAX)
    && (i > 0 ==> IsFinite(best) && (best > floor ==> best == MaxOver(w, branches, i, ply))
                  && (best <= floor ==> MaxOver(w, branches, i, ply) <= best))
  }

  lemma {:induction false} MaxGrows(w: Weights, branches: seq<Branch>, i: nat, n: nat, ply: nat)
    requires 0 < i <= n <= |branches| && forall j :: 0 <= j < |branches| ==> SteadyBranch(w, branches[j], ply)
    ensures MaxOver(w, branches, i, ply) <= MaxOver(w, branches, n, ply)
  {
    if i < n {
      MaxGrows(w, branches, i, n - 1, ply);
    }
  }

  ghost function BranchValue(w: Weights, b: Branch, ply: nat): real
    requires SteadyBranch(w, b, ply)
  {
    MinOver(w, b.replies, |b.replies|, ply + 1)
  }

  /** A recorded value is exact or an upper bound, as its flag says. */
  ghost predicate TrueFlag(v: real, r: Value) {
    && (r.bound == Exact || r.bound == UpperBound)
    && (r.bound == Exact ==> r.score == v)
    && (r.bound == UpperBound ==> r.score >= v)
  }

  /** One more own move tried. */
  lemma NextBranch(w: Weights, branches: seq<Branch>, i: nat, ply: nat, floor: real, alpha: real, beta: real, best: real,
                   worst: real, next: real)
    requires i < |branches| && (forall j :: 0 <= j < |branches| ==> SteadyBranch(w, branches[j], ply)) && Window(floor, beta)
    requires BranchesSeen(w, branches, i, ply, floor, alpha, best) && Sound(BranchValue(w, branches[i], ply), alpha, beta, worst)
    requires IsFinite(worst) && next == Most(best, worst)
    ensures MaxOver(w, branches, i + 1, ply) ==
      if i == 0 then BranchValue(w, branches[i], ply) else Most(MaxOver(w, branches, i, ply), BranchValue(w, branches[i], ply))
    ensures Most(alpha, next) == Most(floor, next)
    ensures Most(alpha, next) < beta ==> BranchesSeen(w, branches, i + 1, ply, floor, Most(alpha, next), next)
    ensures Most(alpha, next) >= beta ==> beta <= next <= MaxOver(w, branches, i + 1, ply) && IsFinite(next)
  {
    hide MinOver;
  }

  lemma {:induction false} BestMoveSound(w: Weights, branches: seq<Branch>, i: nat, ply: nat, floor: real, alpha: real,
                                         beta: real, best: Value)
    requires i <= |branches| && branches != [] && (forall j :: 0 <= j < |branches| ==> SteadyBranch(w, branches[j], ply))
    requires Window(floor, beta) && alpha < beta && (ply > 0 ==> Lasting(w, best))
    requires BranchesSeen(w, branches, i, ply, floor, alpha, best.score)
    ensures var (r, records) := BestMove(w, branches, i, alpha, beta, best);
            && (ply > 0 ==> Lasting(w, r)) && IsFinite(r.score)
            && Sound(MaxOver(w, branches, |branches|, ply), floor, beta, r.score)
            && |records| <= |branches| - i
            && (beta == DBL_MAX ==> |records| == |branches| - i)
            && (beta == DBL_MAX ==>
                  forall j :: 0 <= j < |records| ==> TrueFlag(BranchValue(w, branches[i + j], ply), records[j]))
    decreases branches, 2, |branches| - i
  {
    hide Search, WorstReply, MinOver, MaxOver, Lasting;
    if i < |branches| {
      var b := branches[i];
      assert SteadyBranch(w, b, ply);
      FreshIsLasting(w);
      WorstReplySound(w, b.replies, 0, ply + 1, alpha, beta, Unsettled(DBL_MAX));
      var (worst, cut) := WorstReply(w, b.replies, 0, alpha, beta, Unsettled(DBL_MAX));
      var recorded := worst.(bound := if cut then UpperBound else Exact);
      var next := if Replaces(b, worst, best) then worst else best;
      NextBranch(w, branches, i, ply, floor, alpha, beta, best.score, worst.score, next.score);
      assert beta == DBL_MAX ==> TrueFlag(BranchValue(w, b, ply), recorded);
      MaxGrows(w, branches, i + 1, |branches|, ply);
      if Most(alpha, next.score) < beta {
        BestMoveSound(w, branches, i + 1, ply, floor, Most(alpha, next.score), beta, next);
      }
    }
  }

  lemma FreshIsLasting(w: Weights)
    ensures Lasting(w, Unsettled(DBL_MAX)) && Lasting(w, Unsettled(-DBL_MAX))
  {}

  /**
   The search of a steady tree is sound for its window, whatever the order of moves and
   replies: exact inside, and a bound on the proper side outside.
   */
  lemma {:induction false} SearchSound(w: Weights, t: Node, ply: nat, alpha: real, beta: real)
    requires Steady(w, t, ply) && !t.Terminal? && Window(alpha, beta)
    ensures var r := Search(w, t, alpha, beta);
            && (ply > 0 ==> Lasting(w, r)) && IsFinite(r.score)
            && Sound(Maximin(w, t, ply), alpha, beta, r.score)
            && (match r.bound case Exact => r.score == Maximin(w, t, ply)
                              case UpperBound => Maximin(w, t, ply) <= r.score
                              case LowerBound => Maximin(w, t, ply) >= r.score)
    decreases t, 3
  {
    if t.Choice? {
      BestMoveSound(w, t.branches, 0, ply, alpha, alpha, beta, Unsettled(-DBL_MAX));
    }
  }

  /** In the widest window the search finds the max-min value, and flags every root move truthfully. */
  lemma RootSound(w: Weights, branches: seq<Branch>)
    requires Steady(w, Choice(branches), 0)
    ensures Search(w, Choice(branches), -DBL_MAX, DBL_MAX).score == Maximin(w, Choice(branches), 0)
    ensures var records := BestMove(w, branches, 0, -DBL_MAX, DBL_MAX, Unsettled(-DBL_MAX)).1;
            |records| == |branches| &&
            forall i :: 0 <= i < |records| ==> TrueFlag(BranchValue(w, branches[i], 0), records[i])
  {
    SearchSound(w, Choice(branches), 0, -DBL_MAX, DBL_MAX);
    BestMoveSound(w, branches, 0, 0, -DBL_MAX, -DBL_MAX, DBL_MAX, Unsettled(-DBL_MAX));
  }

  /** What the records say about the best score: none is above it, and an exact one attains it. */
  ghost predicate Attained(records: seq<Value>, best: real) {
    && (forall j :: 0 <= j < |records| ==> records[j].score <= best)
    && (exists j :: 0 <= j < |records| && records[j].bound == Exact && records[j].score == best)
  }

  lemma {:induction false} BestIsRecorded(w: Weights, branches: seq<Branch>, i: nat, alpha: real, best: Value)
    requires i <= |branches| && forall j :: 0 <= j < |branches| ==> SteadyBranch(w, branches[j], 0)
    requires BranchesSeen(w, branches, i, 0, -DBL_MAX, alpha, best.score) && alpha < DBL_MAX
    ensures var (r, records) := BestMove(w, branches, i, alpha, DBL_MAX, best);
            && r.score >= best.score
            && (r.score > best.score ==> Attained(records, r.score))
            && (forall j :: 0 <= j < |records| ==> records[j].score <= r.score)
    decreases |branches| - i
  {
    hide Search, WorstReply, MinOver, MaxOver;
    if i < |branches| {
      var b := branches[i];
      assert SteadyBranch(w, b, 0);
      WorstReplySound(w, b.replies, 0, 1, alpha, DBL_MAX, Unsettled(DBL_MAX));
      var (worst, cut) := WorstReply(w, b.replies, 0, alpha, DBL_MAX, Unsettled(DBL_MAX));
      var recorded := worst.(bound := if cut then UpperBound else Exact);
      var next := if Replaces(b, worst, best) then worst else best;
      NextBranch(w, branches, i, 0, -DBL_MAX, alpha, DBL_MAX, best.score, worst.score, next.score);
      if Most(alpha, next.score) < DBL_MAX {
        BestIsRecorded(w, branches, i + 1, Most(alpha, next.score), next);
        var (r, rest) := BestMove(w, branches, i + 1, Most(alpha, next.score), DBL_MAX, next);
        RecordedOrLater(recorded, rest, r.score, best.score);
      }
    }
  }

  lemma RecordedOrLater(recorded: Value, rest: seq<Value>, r: real, best: real)
    requires recorded.score <= r && forall j :: 0 <= j < |rest| ==> rest[j].score <= r
    requires r > best ==> Attained(rest, r) || (recorded.bound == Exact && recorded.score == r)
    ensures r > best ==> Attained([recorded] + rest, r)
    ensures forall j :: 0 <= j < |[recorded] + rest| ==> ([recorded] + rest)[j].score <= r
  {
    var all := [recorded] + rest;
    if r > best {
      if recorded.bound == Exact && recorded.score == r {
        assert all[0] == recorded;
      } else {
        var j :| 0 <= j < |rest| && rest[j].bound == Exact && rest[j].score == r;
        assert all[j + 1] == rest[j];
      }
    }
  }

  /** In the widest window an exact record attains the best score, and no record is above it. */
  lemma RootRecords(w: Weights, branches: seq<Branch>)
    requires Steady(w, Choice(branches), 0)
    ensures Attained(BestMove(w, branches, 0, -DBL_MAX, DBL_MAX, Unsettled(-DBL_MAX)).1,
                     Search(w, Choice(branches), -DBL_MAX, DBL_MAX).score)
  {
    SearchSound(w, Choice(branches), 0, -DBL_MAX, DBL_MAX);
    BestIsRecorded(w, branches, 0, -DBL_MAX, Unsettled(-DBL_MAX));
  }

  /** The search without windows: every reply and every own move counts. */
  function Plain(w: Weights, t: Node): Value
    decreases t
  {
    match t
    case Terminal(outcome) => TerminalValue(w, outcome, 0)
    case Quiet(score) => Unsettled(score)
    case Choice(branches) => PlainBest(w, branches, |branches|)
  }

  function PlainBest(w: Weights, branches: seq<Branch>, n: nat): Value
    requires n <= |branches|
    decreases branches, n
  {
    if n == 0 then Unsettled(-DBL_MAX)
    else
      var best, worst := PlainBest(w, branches, n - 1), PlainWorst(w, branches[n - 1].replies, |branches[n - 1].replies|);
      if Replaces(branches[n - 1], worst, best) then worst else best
  }

  function PlainWorst(w: Weights, replies: seq<Reply>, n: nat): Value
    requires n <= |replies|
    decreases replies, n
  {
    if n == 0 then Unsettled(DBL_MAX)
    else
      var worst, value := PlainWorst(w, replies, n - 1), Backup(w, Plain(w, replies[n - 1].node));
      if value.score < worst.score then value else worst
  }

  /** On steady trees the search without windows computes the max-min value. */
  lemma {:induction false} PlainIsMaximin(w: Weights, t: Node, ply: nat)
    requires Steady(w, t, ply) && !t.Terminal?
    ensures (ply > 0 ==> Lasting(w, Plain(w, t))) && Plain(w, t).score == Maximin(w, t, ply)
    decreases t, 0
  {
    if t.Choice? {
      PlainBestIsMax(w, t.branches, |t.branches|, ply);
    }
  }

  lemma {:induction false} PlainBestIsMax(w: Weights, branches: seq<Branch>, n: nat, ply: nat)
    requires 0 < n <= |branches| && forall j :: 0 <= j < n ==> SteadyBranch(w, branches[j], ply)
    ensures (ply > 0 ==> Lasting(w, PlainBest(w, branches, n))) && PlainBest(w, branches, n).score == MaxOver(w, branches, n, ply)
    decreases branches, n
  {
    hide Lasting, PlainWorst, MinOver;
    assert SteadyBranch(w, branches[n - 1], ply);
    PlainWorstIsMin(w, branches[n - 1].replies, |branches[n - 1].replies|, ply + 1);
    FreshIsLasting(w);
    if n > 1 {
      PlainBestIsMax(w, branches, n - 1, ply);
    }
  }

  lemma {:induction false} PlainWorstIsMin(w: Weights, replies: seq<Reply>, n: nat, ply: nat)
    requires 0 < n <= |replies| && SteadyReplies(w, replies, n, ply) && ply > 0
    ensures (ply > 1 ==> Lasting(w, PlainWorst(w, replies, n))) && PlainWorst(w, replies, n).score == MinOver(w, replies, n, ply)
    decreases replies, n
  {
    hide Lasting, TerminalValue, SurvivalStep, Backup, Plain;
    var node := replies[n - 1].node;
    assert Steady(w, node, ply);
    PlainReply(w, node, ply);
    FreshIsLasting(w);
    if n > 1 {
      PlainWorstIsMin(w, replies, n - 1, ply);
    }
  }

  lemma {:induction false} PlainReply(w: Weights, node: Node, ply: nat)
    requires Steady(w, node, ply) && ply > 0
    ensures var value := Backup(w, Plain(w, node));
            (ply > 1 ==> Lasting(w, value)) && value.score == Maximin(w, node, ply)
    decreases node, 1
  {
    hide TerminalValue, SurvivalStep;
    if node.Terminal? {
      TerminalOnce(w, node.outcome);
      if ply > 1 {
        LastingScore(w, node.outcome, ply, 1);
      }
    } else {
      PlainIsMaximin(w, node, ply);
      BackupKeeps(w, Plain(w, node));
    }
  }

  /** Scores are finite, every choice has moves, and every move replies; positions may be decided anywhere. */
  ghost predicate Proper(t: Node)
    decreases t
  {
    match t
    case Terminal(outcome) => outcome != Unresolved
    case Quiet(score) => IsFinite(score)
    case Choice(branches) => branches != [] && forall i :: 0 <= i < |branches| ==> ProperBranch(branches[i])
  }

  ghost predicate ProperBranch(b: Branch)
    decreases b
  {
    b.replies != [] && forall k :: 0 <= k < |b.replies| ==> Proper(b.replies[k].node)
  }

  ghost predicate FiniteWeights(w: Weights) { IsFinite(w.win) && IsFinite(w.loss) }

  lemma {:induction false} ProperIsSteady(w: Weights, t: Node, ply: nat)
    requires Proper(t) && FiniteWeights(w) && SurvivalStep(w) == 0.0
    ensures Steady(w, t, ply)
    decreases t
  {
    if t.Choice? {
      forall i | 0 <= i < |t.branches| ensures SteadyBranch(w, t.branches[i], ply) {
        var b := t.branches[i];
        assert ProperBranch(b);
        forall k | 0 <= k < |b.replies| ensures Steady(w, b.replies[k].node, ply + 1) {
          ProperIsSteady(w, b.replies[k].node, ply + 1);
        }
      }
    }
  }

  /** The records of the root moves agree with the search without windows, as their flags say. */
  ghost predicate TrueFlags(w: Weights, branches: seq<Branch>) {
    var records := BestMove(w, branches, 0, -DBL_MAX, DBL_MAX, Unsettled(-DBL_MAX)).1;
    && |records| == |branches|
    && forall i :: 0 <= i < |records| ==>
         TrueFlag(PlainWorst(w, branches[i].replies, |branches[i].replies|).score, records[i])
  }

  lemma SteadyFlags(w: Weights, branches: seq<Branch>)
    requires Steady(w, Choice(branches), 0)
    ensures TrueFlags(w, branches)
  {
    hide BestMove, PlainWorst;
    RootSound(w, branches);
    forall i | 0 <= i < |branches|
      ensures PlainWorst(w, branches[i].replies, |branches[i].replies|).score == BranchValue(w, branches[i], 0)
    {
      assert SteadyBranch(w, branches[i], 0);
      PlainWorstIsMin(w, branches[i].replies, |branches[i].replies|, 1);
    }
  }

  function Sole(node: Node): seq<Reply> { [Reply([], node)] }

  /** Winning at once in every line, or a quiet position of the same score. */
  function LateWin(w: Weights): Node {
    Choice([Branch(Up, false, Sole(Terminal(Win))), Branch(Down, false, Sole(Quiet(w.win)))])
  }

  /** The first reply loses for the opponent at once, the second one turn later at best. */
  function Misled(w: Weights): seq<Branch> {
    [Branch(Up, false, [Reply([], Terminal(Win)), Reply([], LateWin(w))])]
  }

  /** The scores of a win one and two turns away. */
  lemma WinScores(w: Weights)
    requires FiniteWeights(w) && SurvivalStep(w) > 0.0
    ensures TerminalValue(w, Win, 1) == Value(w.win - SurvivalStep(w), Win, 1, Exact)
    ensures Backup(w, TerminalValue(w, Win, 0)) == TerminalValue(w, Win, 1)
    ensures Backup(w, TerminalValue(w, Win, 1)).score == w.win - 2.0 * SurvivalStep(w)
    ensures w.win - w.loss >= 132.0 * SurvivalStep(w) && IsFinite(w.win - 2.0 * SurvivalStep(w))
  {}

  /** The searches of the second reply, with the window closed at the score of the first and without windows. */
  lemma LateWinValues(w: Weights)
    requires FiniteWeights(w) && SurvivalStep(w) > 0.0
    ensures Search(w, LateWin(w), -DBL_MAX, w.win - SurvivalStep(w)).(bound := Exact) == TerminalValue(w, Win, 1)
    ensures Plain(w, LateWin(w)) == Unsettled(w.win)
  {
    hide SurvivalStep, TerminalValue;
    WinScores(w);
    var late, beta := LateWin(w).branches, w.win - SurvivalStep(w);
    var won := TerminalValue(w, Win, 1);
    OneReply(w, Terminal(Win), won, -DBL_MAX, beta);
    OneReply(w, Quiet(w.win), Unsettled(w.win), -DBL_MAX, beta);
    assert BestMove(w, late, 0, -DBL_MAX, beta, Unsettled(-DBL_MAX)).0 == won;
    assert PlainBest(w, late, 1) == won;
  }

  lemma OneReply(w: Weights, t: Node, value: Value, alpha: real, beta: real)
    requires !t.Choice? && value == Backup(w, Plain(w, t)) && alpha < value.score < DBL_MAX
    ensures WorstReply(w, Sole(t), 0, alpha, beta, Unsettled(DBL_MAX)) == (value, false)
    ensures PlainWorst(w, Sole(t), 1) == value
  {
    hide SurvivalStep, TerminalValue, Backup;
    assert Search(w, t, alpha, Least(DBL_MAX, beta)) == Plain(w, t);
    assert WorstReply(w, Sole(t), 1, alpha, beta, value) == (value, false);
  }

  /**
   With a survival step, a win is scored again one turn earlier while the window stays where it
   was: the second reply is cut off at the score of the first and then falls below it.
   */
  lemma StepMisleads(w: Weights)
    requires FiniteWeights(w) && SurvivalStep(w) > 0.0
    ensures Proper(Choice(Misled(w))) && !TrueFlags(w, Misled(w))
  {
    hide SurvivalStep, TerminalValue, Search, Plain, Backup;
    WinScores(w);
    LateWinValues(w);
    var replies, won := Misled(w)[0].replies, TerminalValue(w, Win, 1);
    MisledReplies(w);
    var worst := WorstReply(w, replies, 0, -DBL_MAX, DBL_MAX, Unsettled(DBL_MAX)).0;
    assert worst.score < PlainWorst(w, replies, 2).score;
    assert BestMove(w, Misled(w), 0, -DBL_MAX, DBL_MAX, Unsettled(-DBL_MAX)).1[0].score == worst.score;
    assert ProperBranch(LateWin(w).branches[0]) && ProperBranch(LateWin(w).branches[1]);
    assert Proper(LateWin(w)) && ProperBranch(Misled(w)[0]);
  }

  lemma MisledReplies(w: Weights)
    requires FiniteWeights(w) && SurvivalStep(w) > 0.0
    ensures var replies := Misled(w)[0].replies;
            && WorstReply(w, replies, 0, -DBL_MAX, DBL_MAX, Unsettled(DBL_MAX)).0.score == w.win - 2.0 * SurvivalStep(w)
            && PlainWorst(w, replies, 2).score == w.win - SurvivalStep(w)
  {
    hide SurvivalStep, TerminalValue;
    WinScores(w);
    LateWinValues(w);
    var replies, won := Misled(w)[0].replies, TerminalValue(w, Win, 1);
    assert WorstReply(w, replies, 0, -DBL_MAX, DBL_MAX, Unsettled(DBL_MAX)) == WorstReply(w, replies, 1, -DBL_MAX, DBL_MAX, won);
    var r := Search(w, replies[1].node, -DBL_MAX, won.score);
    assert Backup(w, r).score == Backup(w, won).score;
    assert WorstReply(w, replies, 1, -DBL_MAX, DBL_MAX, won) == WorstReply(w, replies, 2, -DBL_MAX, DBL_MAX, Backup(w, r));
    assert PlainWorst(w, replies, 1) == won;
  }

  /** The flags can be trusted on all trees exactly when there is no survival step. */
  lemma FlagsTrueWithoutStep(w: Weights)
    requires FiniteWeights(w)
    ensures (forall branches :: Proper(Choice(branches)) ==> TrueFlags(w, branches)) <==> SurvivalStep(w) == 0.0
  {
    hide TrueFlags, Misled, Proper;
    if SurvivalStep(w) == 0.0 {
      forall branches | Proper(Choice(branches)) ensures TrueFlags(w, branches) {
        ProperIsSteady(w, Choice(branches), 0);
        SteadyFlags(w, branches);
      }
    } else {
      StepMisleads(w);
    }
  }
}
