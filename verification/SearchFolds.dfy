/**
 The loops of the search as folds from the left: what the variables hold after some
 replies or own moves depends on those alone.
 */
module SearchFolds {
  import opened Limits
  import opened Outcomes
  import opened AlphaBeta

  /** The worst reply among the first k. */
  ghost function WorstAfter(w: Weights, replies: seq<Reply>, k: nat, alpha: real, beta: real): Value
    requires k <= |replies|
  {
    if k == 0 then Unsettled(DBL_MAX)
    else
      var worst := WorstAfter(w, replies, k - 1, alpha, beta);
      var value := Backup(w, Search(w, replies[k - 1].node, alpha, Least(worst.score, beta)));
      if value.score < worst.score then value else worst
  }

  ghost predicate NotCut(w: Weights, replies: seq<Reply>, k: nat, alpha: real, beta: real)
    requires k <= |replies|
  {
    forall j :: 0 < j <= k ==> WorstAfter(w, replies, j, alpha, beta).score > alpha
  }

  lemma {:induction false} WorstIsFold(w: Weights, replies: seq<Reply>, k: nat, alpha: real, beta: real)
    requires k <= |replies| && NotCut(w, replies, k, alpha, beta)
    ensures WorstReply(w, replies, 0, alpha, beta, Unsettled(DBL_MAX))
         == WorstReply(w, replies, k, alpha, beta, WorstAfter(w, replies, k, alpha, beta))
  {
    hide Search, Backup;
    if k > 0 {
      WorstIsFold(w, replies, k - 1, alpha, beta);
      assert WorstAfter(w, replies, k, alpha, beta).score > alpha;
    }
  }

  /** The fold at its end, or where it is cut. */
  lemma WorstReplyEnds(w: Weights, replies: seq<Reply>, k: nat, alpha: real, beta: real)
    requires k <= |replies| && NotCut(w, replies, k, alpha, beta)
    ensures k == |replies| ==>
      WorstReply(w, replies, 0, alpha, beta, Unsettled(DBL_MAX)) == (WorstAfter(w, replies, k, alpha, beta), false)
    ensures k < |replies| && WorstAfter(w, replies, k + 1, alpha, beta).score <= alpha ==>
      WorstReply(w, replies, 0, alpha, beta, Unsettled(DBL_MAX)) == (WorstAfter(w, replies, k + 1, alpha, beta), true)
  {
    hide Search, Backup;
    WorstIsFold(w, replies, k, alpha, beta);
  }

  lemma {:induction false} WorstAfterPrefix(w: Weights, a: seq<Reply>, b: seq<Reply>, k: nat, alpha: real, beta: real)
    requires k <= |a| && k <= |b| && a[..k] == b[..k]
    ensures WorstAfter(w, a, k, alpha, beta) == WorstAfter(w, b, k, alpha, beta)
  {
    hide Search, Backup;
    if k > 0 {
      assert a[k - 1] == a[..k][k - 1] == b[..k][k - 1];
      assert a[..k - 1] == a[..k][..k - 1] == b[..k - 1];
      WorstAfterPrefix(w, a, b, k - 1, alpha, beta);
    }
  }

  lemma NotCutPrefix(w: Weights, a: seq<Reply>, b: seq<Reply>, k: nat, alpha: real, beta: real)
    requires k <= |a| && k <= |b| && a[..k] == b[..k] && NotCut(w, a, k, alpha, beta)
    ensures NotCut(w, b, k, alpha, beta)
  {
    forall j | 0 < j <= k ensures WorstAfter(w, b, j, alpha, beta).score > alpha {
      assert a[..j] == a[..k][..j] == b[..j];
      WorstAfterPrefix(w, a, b, j, alpha, beta);
    }
  }

  /** The best own move so far, the window's floor, and the recorded values. */
  datatype Progress = Progress(best: Value, alpha: real, records: seq<Value>)

  ghost function NextProgress(w: Weights, p: Progress, br: Branch, beta: real): Progress {
    var r := WorstReply(w, br.replies, 0, p.alpha, beta, Unsettled(DBL_MAX));
    var next := if Replaces(br, r.0, p.best) then r.0 else p.best;
    Progress(next, Most(p.alpha, next.score), p.records + [r.0.(bound := if r.1 then UpperBound else Exact)])
  }

  ghost function BestAfter(w: Weights, branches: seq<Branch>, i: nat, alpha: real, beta: real): (p: Progress)
    requires i <= |branches|
    ensures |p.records| == i
  {
    if i == 0 then Progress(Unsettled(-DBL_MAX), alpha, [])
    else NextProgress(w, BestAfter(w, branches, i - 1, alpha, beta), branches[i - 1], beta)
  }

  ghost predicate NotDone(w: Weights, branches: seq<Branch>, i: nat, alpha: real, beta: real)
    requires i <= |branches|
  {
    forall j :: 0 < j <= i ==> BestAfter(w, branches, j, alpha, beta).alpha < beta
  }

  lemma {:induction false} BestIsFold(w: Weights, branches: seq<Branch>, i: nat, alpha: real, beta: real)
    requires i <= |branches| && NotDone(w, branches, i, alpha, beta)
    ensures var p := BestAfter(w, branches, i, alpha, beta);
            var rest := BestMove(w, branches, i, p.alpha, beta, p.best);
            BestMove(w, branches, 0, alpha, beta, Unsettled(-DBL_MAX)) == (rest.0, p.records + rest.1)
  {
    hide WorstReply;
    if i == 0 {
      var rest := BestMove(w, branches, 0, alpha, beta, Unsettled(-DBL_MAX));
      assert [] + rest.1 == rest.1;
    } else {
      BestIsFold(w, branches, i - 1, alpha, beta);
      var p, q := BestAfter(w, branches, i - 1, alpha, beta), BestAfter(w, branches, i, alpha, beta);
      assert q.alpha < beta;
      var rest := BestMove(w, branches, i, q.alpha, beta, q.best);
      var recorded := q.records[i - 1];
      assert BestMove(w, branches, i - 1, p.alpha, beta, p.best) == (rest.0, [recorded] + rest.1);
      assert p.records + ([recorded] + rest.1) == q.records + rest.1;
    }
  }

  /** The fold at its end, or where the window closes. */
  lemma BestMoveEnds(w: Weights, branches: seq<Branch>, i: nat, alpha: real, beta: real)
    requires i <= |branches| && NotDone(w, branches, i, alpha, beta)
    ensures var p := BestAfter(w, branches, i, alpha, beta);
            i == |branches| ==> BestMove(w, branches, 0, alpha, beta, Unsettled(-DBL_MAX)) == (p.best, p.records)
    ensures i < |branches| ==>
      var p := BestAfter(w, branches, i + 1, alpha, beta);
      p.alpha >= beta ==> BestMove(w, branches, 0, alpha, beta, Unsettled(-DBL_MAX)) == (p.best, p.records)
  {
    hide WorstReply;
    BestIsFold(w, branches, i, alpha, beta);
    var p := BestAfter(w, branches, i, alpha, beta);
    if i == |branches| {
      assert p.records + [] == p.records;
    }
  }

  lemma {:induction false} BestAfterPrefix(w: Weights, a: seq<Branch>, b: seq<Branch>, i: nat, alpha: real, beta: real)
    requires i <= |a| && i <= |b| && a[..i] == b[..i]
    ensures BestAfter(w, a, i, alpha, beta) == BestAfter(w, b, i, alpha, beta)
  {
    hide NextProgress;
    if i > 0 {
      assert a[i - 1] == a[..i][i - 1] == b[..i][i - 1];
      assert a[..i - 1] == a[..i][..i - 1] == b[..i - 1];
      BestAfterPrefix(w, a, b, i - 1, alpha, beta);
    }
  }

  lemma NotDonePrefix(w: Weights, a: seq<Branch>, b: seq<Branch>, i: nat, alpha: real, beta: real)
    requires i <= |a| && i <= |b| && a[..i] == b[..i] && NotDone(w, a, i, alpha, beta)
    ensures NotDone(w, b, i, alpha, beta)
  {
    forall j | 0 < j <= i ensures BestAfter(w, b, j, alpha, beta).alpha < beta {
      assert a[..j] == a[..i][..j] == b[..j];
      BestAfterPrefix(w, a, b, j, alpha, beta);
    }
  }
}
