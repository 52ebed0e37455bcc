/**
 The validator of a bounded lasso: it replays the route in place, with flags for the food
 eaten, and answers exactly whether the replay proves the lasso.
 */
module LassoValidation {
  import opened Grid
  import opened Boards
  import opened Optional
  import opened Limits
  import opened SoloRuns
  import opened Lasso

  datatype LassoResult = NotProved | LassoProved | Deadline | AllocationFailure

  /** The food whose flag is not set. */
  ghost function Remaining(food: seq<Coord>, eaten: seq<bool>): (r: multiset<Coord>)
    requires |food| == |eaten|
  {
    if food == [] then multiset{}
    else
      var n := |food| - 1;
      Remaining(food[..n], eaten[..n]) + if eaten[n] then multiset{} else multiset{food[n]}
  }

  lemma {:induction false} RemainingStarts(food: seq<Coord>, eaten: seq<bool>, c: Coord)
    requires |food| == |eaten| && forall f :: 0 <= f < |food| ==> eaten[f] == (food[f] == c)
    ensures Remaining(food, eaten) == multiset(food)[c := 0]
  {
    if food != [] {
      var n := |food| - 1;
      RemainingStarts(food[..n], eaten[..n], c);
      assert food == food[..n] + [food[n]];
      assert multiset(food) == multiset(food[..n]) + multiset{food[n]};
    }
  }

  lemma RemainingUnfolds(food: seq<Coord>, eaten: seq<bool>)
    requires |food| == |eaten| > 0
    ensures var n := |food| - 1;
            Remaining(food, eaten) == Remaining(food[..n], eaten[..n]) + if eaten[n] then multiset{} else multiset{food[n]}
  {}

  /** Setting one more flag removes that item. */
  lemma {:induction false} RemainingEats(food: seq<Coord>, eaten: seq<bool>, f: nat)
    requires |food| == |eaten| && f < |food| && !eaten[f]
    ensures food[f] in Remaining(food, eaten)
    ensures Remaining(food, eaten[f := true]) + multiset{food[f]} == Remaining(food, eaten)
  {
    hide Remaining;
    var n, flagged := |food| - 1, eaten[f := true];
    RemainingUnfolds(food, eaten);
    RemainingUnfolds(food, flagged);
    if f < n {
      RemainingEats(food[..n], eaten[..n], f);
      assert flagged[..n] == eaten[..n][f := true];
    } else {
      assert flagged[..n] == eaten[..n];
    }
  }

  lemma {:induction false} RemainingMisses(food: seq<Coord>, eaten: seq<bool>, c: Coord)
    requires |food| == |eaten| && forall f :: 0 <= f < |food| ==> eaten[f] || food[f] != c
    ensures c !in Remaining(food, eaten)
  {
    if food != [] {
      RemainingMisses(food[..|food| - 1], eaten[..|food| - 1], c);
    }
  }

  lemma {:induction false} RemainingBound(food: seq<Coord>, eaten: seq<bool>)
    requires |food| == |eaten|
    ensures |Remaining(food, eaten)| <= |food|
  {
    if food != [] {
      RemainingBound(food[..|food| - 1], eaten[..|food| - 1]);
    }
  }

  /** Eats the first item left on the cell, if there is one. */
  method EatAt(food: seq<Coord>, eaten: array<bool>, next: Coord) returns (grow: bool)
    requires eaten.Length == |food|
    modifies eaten
    ensures grow <==> next in old(Remaining(food, eaten[..]))
    ensures Remaining(food, eaten[..]) == Eaten(old(Remaining(food, eaten[..])), next)
    ensures |Remaining(food, eaten[..])| == old(|Remaining(food, eaten[..])|) - (if grow then 1 else 0)
  {
    for f := 0 to |food|
      invariant eaten[..] == old(eaten[..])
      invariant forall k :: 0 <= k < f ==> eaten[k] || food[k] != next
    {
      if !eaten[f] && food[f] == next {
        RemainingEats(food, eaten[..], f);
        eaten[f] := true;
        assert eaten[..] == old(eaten[..])[f := true];
        return true;
      }
    }
    RemainingMisses(food, eaten[..], next);
    return false;
  }

  /** Moves the body in place. */
  method ShiftBody(body: array<Coord>, count: nat, next: Coord, grow: bool) returns (length: nat)
    requires 0 < count <= body.Length && (grow ==> count < body.Length)
    modifies body
    ensures length == (if grow then count + 1 else count)
    ensures length <= body.Length && body[..length] == BodyAfter(old(body[..count]), next, grow)
  {
    var copied := if grow then count else count - 1;
    forall i | 0 <= i < copied {
      body[i + 1] := body[i];
    }
    body[0] := next;
    length := if grow then count + 1 else count;
  }

  method CellListed(cells: array<Coord>, n: nat, c: Coord) returns (found: bool)
    requires n <= cells.Length
    ensures found <==> c in cells[..n]
  {
    for i := 0 to n
      invariant c !in cells[..i]
    {
      if cells[i] == c {
        return true;
      }
      assert cells[..i + 1] == cells[..i] + [cells[i]];
    }
    return false;
  }

  /** Whether the loop is simple; None when the clock stops the check. */
  method LoopIsSimple(u: Setup, depth: nat, loopStart: nat, timedOut: nat -> bool) returns (simple: Option<bool>)
    requires loopStart <= depth < |u.path|
    ensures simple.None? ==> exists t :: timedOut(t)
    ensures simple.Some? ==> (simple.value <==> DistinctHeads(u.path, loopStart, depth))
  {
    var tick := 0;
    for left := loopStart to depth
      invariant forall i, j :: loopStart <= i < left && i < j < depth ==> u.path[i] != u.path[j]
    {
      tick := tick + 1;
      if timedOut(tick) {
        return None;
      }
      for right := left + 1 to depth
        invariant forall j :: left < j < right ==> u.path[left] != u.path[j]
      {
        if (right - left) % 64 == 0 {
          tick := tick + 1;
          if timedOut(tick) {
            return None;
          }
        }
        if u.path[left] == u.path[right] {
          return Some(false);
        }
      }
    }
    return Some(true);
  }

  method SegmentOnLoop(u: Setup, depth: nat, loopStart: nat, c: Coord, timedOut: nat -> bool, tick0: nat)
    returns (onLoop: Option<bool>, tick: nat)
    requires loopStart <= depth < |u.path|
    ensures onLoop.None? ==> exists t :: timedOut(t)
    ensures onLoop.Some? ==> (onLoop.value <==> OnLoop(u, depth, loopStart, c))
  {
    tick := tick0;
    for loop := loopStart to depth
      invariant forall k :: loopStart <= k < loop ==> u.path[k] != c
    {
      if (loop - loopStart) % 64 == 0 {
        tick := tick + 1;
        if timedOut(tick) {
          return None, tick;
        }
      }
      if c == u.path[loop] {
        return Some(true), tick;
      }
    }
    return Some(false), tick;
  }

  /** Whether every segment lies on the loop; None when the clock stops the check. */
  method BodyIsResident(u: Setup, depth: nat, loopStart: nat, body: array<Coord>, count: nat, timedOut: nat -> bool)
    returns (resident: Option<bool>)
    requires u.body != [] && 1 <= loopStart <= depth < |u.path| && count <= body.Length
    requires body[..count] == ReplayAt(u, depth).body
    ensures resident.None? ==> exists t :: timedOut(t)
    ensures resident.Some? ==> (resident.value <==> Resident(u, depth, loopStart))
  {
    hide ReplayAt, OnLoop;
    ghost var longest := ReplayAt(u, depth).body;
    if count >= depth - loopStart {
      return Some(false);
    }
    var tick := 0;
    for segment := 0 to count
      invariant forall i :: 0 <= i < segment ==> OnLoop(u, depth, loopStart, longest[i])
    {
      tick := tick + 1;
      if timedOut(tick) {
        return None;
      }
      assert longest[segment] == body[segment];
      var onLoop;
      onLoop, tick := SegmentOnLoop(u, depth, loopStart, body[segment], timedOut, tick);
      if onLoop.None? || !onLoop.value {
        return onLoop;
      }
    }
    return Some(true);
  }

  /** The arrays hold the replay r. */
  ghost predicate Holds(u: Setup, r: Replay, body: seq<Coord>, health: int, eaten: seq<bool>) {
    && r.body == body && r.health == health && |eaten| == |u.board.food|
    && r.food == Remaining(u.board.food, eaten)
  }

  /** Replays one step; tells whether it is survived. */
  method ReplayStep(u: Setup, k: nat, body: array<Coord>, count: nat, health: int, eaten: array<bool>)
    returns (survived: bool, count': nat, health': int)
    requires u.body != [] && 2 <= k < |u.path| && eaten.Length == |u.board.food|
    requires count + |Remaining(u.board.food, eaten[..])| <= body.Length
    requires Holds(u, ReplayAt(u, k - 1), body[..count], health, eaten[..])
    modifies body, eaten
    ensures survived <==> StepHolds(u, k)
    ensures survived ==> count' <= body.Length && Holds(u, ReplayAt(u, k), body[..count'], health', eaten[..])
    ensures survived ==> count' + |Remaining(u.board.food, eaten[..])| <= body.Length
  {
    hide ReplayAt, StepHolds, Remaining;
    count', health' := count, health;
    var next := u.path[k];
    ghost var r := ReplayAt(u, k - 1);
    StepUnfolds(u, k);
    SomethingLeft(r.food, next);
    if !u.board.InBounds(next) || u.closed(k) {
      return false, count, health;
    }
    health' := health' - 1;
    if next in u.board.hazards {
      health' := health' - u.board.hazardDamage;
    }
    if health' <= 0 {
      return false, count, health';
    }
    var grow := EatAt(u.board.food, eaten, next);
    var occupied := if grow then count else count - 1;
    var hit := CellListed(body, occupied, next);
    assert body[..occupied] == if grow then r.body else r.body[..|r.body| - 1];
    if hit {
      return false, count, health';
    }
    count' := ShiftBody(body, count, next, grow);
    survived := true;
  }

  lemma SomethingLeft(food: multiset<Coord>, c: Coord)
    ensures c in food ==> |food| > 0
  {}

  /** What step k of the replay does, in terms of the replay before it. */
  lemma StepUnfolds(u: Setup, k: nat)
    requires u.body != [] && 2 <= k < |u.path|
    ensures ReplayAt(u, k) == After(u.board, ReplayAt(u, k - 1), u.path[k])
    ensures var r, next := ReplayAt(u, k - 1), u.path[k];
            StepHolds(u, k) <==>
              (u.board.InBounds(next) && !u.closed(k) && r.health - Cost(u.board, next) > 0
               && next !in if next in r.food then r.body else r.body[..|r.body| - 1])
  {}

  /** Validates the lasso; only a clock or an oversized body buffer keeps it from an answer. */
  method ValidateBoundedLasso(u: Setup, depth: nat, loopStart: nat, timedOut: nat -> bool, failedBefore: bool)
    returns (result: LassoResult, capacity: nat, failed: bool)
    requires u.body != [] && 1 <= loopStart < depth < |u.path|
    ensures result == LassoProved ==> Proved(u, depth, loopStart) && capacity == depth - loopStart && failed == failedBefore
    ensures result == NotProved ==>
      !Proved(u, depth, loopStart) && (failed <==> failedBefore || LoopFits(u, depth, loopStart))
    ensures result == Deadline ==> exists t :: timedOut(t)
    ensures result == AllocationFailure ==> |u.board.food| > INT_MAX - |u.body|
  {
    capacity, failed := 0, failedBefore;
    if depth - loopStart <= |u.body| {
      return NotProved, capacity, failed;
    }
    var simple := LoopIsSimple(u, depth, loopStart, timedOut);
    if simple.None? {
      return Deadline, capacity, failed;
    }
    if !simple.value {
      return NotProved, capacity, failed;
    }
    if |u.board.food| > INT_MAX - |u.body| {
      return AllocationFailure, capacity, failed;
    }
    result, capacity, failed := ReplayRoute(u, depth, loopStart, timedOut, failed);
  }

  method ReplayRoute(u: Setup, depth: nat, loopStart: nat, timedOut: nat -> bool, failedBefore: bool)
    returns (result: LassoResult, capacity: nat, failed: bool)
    requires u.body != [] && 1 <= loopStart < depth < |u.path| && LoopFits(u, depth, loopStart)
    ensures result == LassoProved ==> Proved(u, depth, loopStart) && capacity == depth - loopStart && failed == failedBefore
    ensures result == NotProved ==> !Proved(u, depth, loopStart) && failed
    ensures result == Deadline ==> exists t :: timedOut(t)
    ensures result != AllocationFailure
  {
    hide LoopFits, Resident, StepHolds, ReplayAt, Remaining, Holds;
    capacity, failed := 0, failedBefore;
    var body, eaten := SetUp(u);
    var count: nat, health, tick := |u.body|, u.health, 0;
    for step := 2 to depth + 1
      invariant count <= body.Length && Holds(u, ReplayAt(u, step - 1), body[..count], health, eaten[..])
      invariant eaten.Length == |u.board.food| && count + |Remaining(u.board.food, eaten[..])| <= body.Length
      invariant forall k :: 2 <= k < step ==> StepHolds(u, k)
      invariant step > depth ==> Resident(u, depth, loopStart)
      invariant failed == failedBefore
    {
      tick := tick + 1;
      if timedOut(tick) {
        return Deadline, capacity, failed;
      }
      var survived;
      survived, count, health := ReplayStep(u, step, body, count, health, eaten);
      if !survived {
        return NotProved, capacity, true;
      }
      if step == depth {
        HeldBody(u, ReplayAt(u, depth), body[..count], health, eaten[..]);
        var resident := BodyIsResident(u, depth, loopStart, body, count, timedOut);
        if resident.None? {
          return Deadline, capacity, failed;
        }
        if !resident.value {
          return NotProved, capacity, true;
        }
      }
    }
    return LassoProved, depth - loopStart, failed;
  }

  lemma HeldBody(u: Setup, r: Replay, body: seq<Coord>, health: int, eaten: seq<bool>)
    requires Holds(u, r, body, health, eaten)
    ensures r.body == body
  {}

  method SetUp(u: Setup) returns (body: array<Coord>, eaten: array<bool>)
    requires u.body != [] && 1 < |u.path|
    ensures fresh(body) && fresh(eaten) && eaten.Length == |u.board.food| && |u.body| <= body.Length
    ensures Holds(u, ReplayAt(u, 1), body[..|u.body|], u.health, eaten[..])
    ensures |u.body| + |Remaining(u.board.food, eaten[..])| <= body.Length
  {
    body := new Coord[|u.body| + |u.board.food|](i => if 0 <= i < |u.body| then u.body[i] else Coord(0, 0));
    eaten := new bool[|u.board.food|](i requires 0 <= i < |u.board.food| => u.board.food[i] == u.path[1]);
    assert body[..|u.body|] == u.body;
    RemainingStarts(u.board.food, eaten[..], u.path[1]);
    RemainingBound(u.board.food, eaten[..]);
  }
}
