/**
 The mutable board of the searches with its undo stack. Bodies are heap arrays
 that change hands between the live board and the undo frames; the class keeps
 every array owned exactly once and refines a stack of immutable boards: making a
 joint move pushes its specification, unmaking pops it.
 */
module SearchStates {
  import opened Grid
  import opened Boards
  import opened HeadToHead

  datatype Record = Record(id: string, name: string, health: int, body: array?<Coord>, bodyLen: nat, length: int)

  const CLEARED: Record := Record("", "", 0, null, 0, 0)

  /** One snake record with the body array it owns; only a bodiless snake may lack the array. */
  type Slot = s: Record | s.bodyLen > 0 ==> s.body != null && s.bodyLen <= s.body.Length
    witness CLEARED

  /** What is needed to restore the board: the snake records, with body copies, and the food. */
  datatype Frame = Frame(slots: seq<Slot>, food: seq<Coord>)

  ghost function SnakeOf(s: Slot): Snake
    reads s.body
  {
    Snake(s.id, s.name, s.health, if s.bodyLen == 0 then [] else s.body[..s.bodyLen], s.length)
  }

  ghost function Bodies(slots: seq<Slot>): set<object> {
    set i | 0 <= i < |slots| && slots[i].body != null :: slots[i].body
  }

  ghost predicate Represent(slots: seq<Slot>, snakes: seq<Snake>)
    reads Bodies(slots)
  {
    |slots| == |snakes| && forall i :: 0 <= i < |slots| ==> SnakeOf(slots[i]) == snakes[i]
  }

  /** No array is owned by two records of the list. */
  ghost predicate Separate(slots: seq<Slot>) {
    forall i, j :: 0 <= i < j < |slots| && slots[i].body != null ==> slots[i].body != slots[j].body
  }

  /** All arrays the list owns belong to the region. */
  ghost predicate Within(slots: seq<Slot>, region: set<object>) {
    forall i :: 0 <= i < |slots| && slots[i].body != null ==> slots[i].body in region
  }

  /** Each frame owns arrays of its own region, and the regions are disjoint. */
  ghost predicate FramesOwn(undo: seq<Frame>, regions: seq<set<object>>) {
    && |regions| == |undo|
    && (forall i :: 0 <= i < |undo| ==> Separate(undo[i].slots) && Within(undo[i].slots, regions[i]))
    && (forall i, j :: 0 <= i < j < |regions| ==> regions[i] !! regions[j])
  }

  ghost predicate RegionsInside(regions: seq<set<object>>, all: set<object>) {
    forall i :: 0 <= i < |regions| ==> regions[i] <= all
  }

  /** Counts only shrink going up the stack, and fit the buffers allocated at the start. */
  ghost predicate FramesShrink(undo: seq<Frame>, snakes: nat, items: nat, snakeCapacity: nat, foodCapacity: nat) {
    && snakes <= snakeCapacity && items <= foodCapacity
    && (forall i :: 0 <= i < |undo| ==>
         snakes <= |undo[i].slots| <= snakeCapacity && items <= |undo[i].food| <= foodCapacity)
    && (forall i, j :: 0 <= i < j < |undo| ==>
         |undo[j].slots| <= |undo[i].slots| && |undo[j].food| <= |undo[i].food|)
  }

  /** A further frame, with new arrays and the counts of the live board. */
  lemma PushKeepsOwnership(undo: seq<Frame>, regions: seq<set<object>>, frame: Frame, region: set<object>,
                           all: set<object>, snakeCapacity: nat, foodCapacity: nat)
    requires FramesOwn(undo, regions) && RegionsInside(regions, all)
    requires FramesShrink(undo, |frame.slots|, |frame.food|, snakeCapacity, foodCapacity)
    requires Separate(frame.slots) && Within(frame.slots, region) && all !! region
    ensures FramesOwn(undo + [frame], regions + [region]) && RegionsInside(regions + [region], all + region)
    ensures FramesShrink(undo + [frame], |frame.slots|, |frame.food|, snakeCapacity, foodCapacity)
  {}

  /** The arrays owned by frames all lie in the region reserved for them. */
  ghost predicate FrameBodiesIn(undo: seq<Frame>, all: set<object>) {
    forall i, k :: 0 <= i < |undo| && 0 <= k < |undo[i].slots| && undo[i].slots[k].body != null ==>
      undo[i].slots[k].body in all
  }

  lemma FramesStayInside(undo: seq<Frame>, regions: seq<set<object>>, all: set<object>)
    requires FramesOwn(undo, regions) && RegionsInside(regions, all)
    ensures FrameBodiesIn(undo, all)
  {
    forall i, k | 0 <= i < |undo| && 0 <= k < |undo[i].slots| && undo[i].slots[k].body != null
      ensures undo[i].slots[k].body in all
    {
      assert Within(undo[i].slots, regions[i]) && regions[i] <= all;
    }
  }

  /** A joint move only lowers the live counts. */
  lemma MoveKeepsFrames(undo: seq<Frame>, snakes: nat, items: nat, fewer: nat, less: nat,
                        snakeCapacity: nat, foodCapacity: nat)
    requires fewer <= snakes && less <= items
    requires FramesShrink(undo, snakes, items, snakeCapacity, foodCapacity)
    ensures FramesShrink(undo, fewer, less, snakeCapacity, foodCapacity)
  {}

  /** What the last frame contributes, and what remains without it. */
  lemma PopKeepsOwnership(undo: seq<Frame>, regions: seq<set<object>>, all: set<object>,
                          snakes: nat, items: nat, snakeCapacity: nat, foodCapacity: nat)
    requires undo != [] && FramesOwn(undo, regions) && RegionsInside(regions, all)
    requires FramesShrink(undo, snakes, items, snakeCapacity, foodCapacity)
    ensures var n, last := |undo| - 1, undo[|undo| - 1];
            && FramesOwn(undo[..n], regions[..n]) && Separate(last.slots) && Within(last.slots, regions[n])
            && |regions| == |undo| && regions[n] <= all && RegionsInside(regions[..n], all - regions[n])
            && FramesShrink(undo[..n], |last.slots|, |last.food|, snakeCapacity, foodCapacity)
  {}

  /** Replacing one record keeps a list separate when its array is the old one or a new one. */
  lemma ReplaceKeepsSeparate(before: seq<Slot>, after: seq<Slot>, i: nat)
    requires Separate(before) && |after| == |before| && i < |before|
    requires forall j :: 0 <= j < |before| && j != i ==> after[j] == before[j]
    requires after[i].body == before[i].body || forall j :: 0 <= j < |before| ==> before[j].body != after[i].body
    ensures Separate(after)
  {}

  /** The causes of death known after body collisions. */
  ghost function BodyCauses(ms: seq<Mover>, i: nat): set<Cause>
    requires i < |ms|
  {
    ms[i].causes
    + (if !ms[i].dead && BodyHit(ms, i, i) then {SelfBody} else {})
    + (if !ms[i].dead && exists j :: 0 <= j < |ms| && j != i && BodyHit(ms, i, j) then {OtherBody} else {})
  }

  /** Exactly the snakes killed head to head so far are blamed for it. */
  ghost predicate Blamed(ms: seq<Mover>, dead: seq<bool>, why: seq<set<Cause>>) {
    && |dead| == |why| == |ms|
    && forall k :: 0 <= k < |ms| ==>
         why[k] == BodyCauses(ms, k) + (if dead[k] && Standing(ms, k) then {HeadToHead} else {})
  }

  /** The entries of a list at the given positions. */
  ghost function Select<T>(list: seq<T>, at: seq<nat>): (r: seq<T>)
    requires forall k :: 0 <= k < |at| ==> at[k] < |list|
    ensures |r| == |at|
  {
    seq(|at|, k requires 0 <= k < |at| => list[at[k]])
  }

  lemma SelectKeepsSeparate(list: seq<Slot>, at: seq<nat>)
    requires Separate(list)
    requires forall k :: 0 <= k < |at| ==> at[k] < |list|
    requires forall k, l :: 0 <= k < l < |at| ==> at[k] < at[l]
    ensures Separate(Select(list, at))
  {}

  lemma SelectSurvivors(list: seq<Slot>, ms: seq<Mover>)
    requires |list| == |ms| && forall k :: 0 <= k < |ms| ==> SnakeOf(list[k]) == ms[k].snake
    ensures Represent(Select(list, Kept(ms, |ms|)), Survivors(ms, |ms|))
    ensures forall k :: 0 <= k < |Kept(ms, |ms|)| ==> Select(list, Kept(ms, |ms|))[k] in list
  {}

  function RecordedLength(s: Slot): int {
    if s.length > 0 then s.length else s.bodyLen
  }

  class CoreSearchState {
    const width: int
    const height: int
    const hazards: seq<Coord>
    const ruleset: string
    const hazardDamage: int
    const snakeCapacity: nat
    const food: array<Coord>
    var live: seq<Slot>
    var foodCount: nat
    var undo: seq<Frame>

    /** The boards represented, bottom first, and the arrays that represent each of them. */
    ghost var boards: seq<Board>
    ghost var regions: seq<set<object>>
    ghost var liveRegion: set<object>
    ghost var Repr: set<object>

    ghost function BoardOf(snakes: seq<Snake>, items: seq<Coord>): Board {
      Board(width, height, snakes, items, hazards, ruleset, hazardDamage)
    }

    /** The settings and the food of b are those of this state. */
    ghost predicate PlayedOn(b: Board)
      requires foodCount <= food.Length
      reads this`foodCount, food
    {
      b == BoardOf(b.snakes, food[..foodCount])
    }

    /** The board the live arrays currently hold. */
    ghost predicate Holds(b: Board)
      requires foodCount <= food.Length
      reads this`live, this`foodCount, food, Bodies(live)
    {
      Represent(live, b.snakes) && PlayedOn(b)
    }

    ghost predicate Captured(f: Frame, b: Board)
      reads Bodies(f.slots)
    {
      Represent(f.slots, b.snakes) && b == BoardOf(b.snakes, f.food)
    }

    /** The frames hold the boards below the top. */
    ghost predicate FramesHold(frames: seq<Frame>, below: seq<Board>)
      reads set i, k | 0 <= i < |frames| && 0 <= k < |frames[i].slots| && frames[i].slots[k].body != null ::
              frames[i].slots[k].body
    {
      |frames| == |below| && forall i :: 0 <= i < |frames| ==> Captured(frames[i], below[i])
    }

    ghost predicate Valid()
      reads this, Repr
      ensures Valid() ==> this in Repr && boards != []
    {
      && this in Repr && food in Repr && foodCount <= food.Length
      && liveRegion <= Repr - {this, food} && RegionsInside(regions, Repr - {this, food} - liveRegion)
      && FramesOwn(undo, regions) && Separate(live) && Within(live, liveRegion)
      && FramesShrink(undo, |live|, foodCount, snakeCapacity, food.Length)
      && boards != []
      && Holds(Top()) && FramesHold(undo, boards[..|boards| - 1])
    }

    /** The board a search looks at. */
    ghost function Top(): Board
      reads this
      requires boards != []
    {
      boards[|boards| - 1]
    }

    /** Fresh records, with fresh bodies, for the given snakes. */
    static method CopySnakes(snakes: seq<Snake>) returns (records: seq<Slot>, ghost region: set<object>)
      ensures Separate(records) && Represent(records, snakes)
      ensures fresh(region) && Within(records, region)
    {
      records, region := [], {};
      for i := 0 to |snakes|
        invariant |records| == i && Separate(records)
        invariant fresh(region) && Within(records, region)
        invariant forall k :: 0 <= k < i ==> SnakeOf(records[k]) == snakes[k]
      {
        var s := snakes[i];
        var body := new Coord[|s.body|](k requires 0 <= k < |s.body| => s.body[k]);
        assert body[..|s.body|] == s.body;
        region := region + {body};
        records := records + [Record(s.id, s.name, s.health, body, |s.body|, s.length)];
      }
    }

    static method CopyFood(items: seq<Coord>) returns (buffer: array<Coord>)
      ensures fresh(buffer) && buffer[..] == items
    {
      buffer := new Coord[|items|](i requires 0 <= i < |items| => items[i]);
    }

    constructor (b: Board)
      ensures Valid() && fresh(Repr)
      ensures boards == [b] && undo == []
    {
      width, height, hazards, ruleset, hazardDamage := b.width, b.height, b.hazards, b.ruleset, b.hazardDamage;
      var items := CopyFood(b.food);
      var records, region := CopySnakes(b.snakes);
      live, food, snakeCapacity, foodCount := records, items, |b.snakes|, |b.food|;
      undo := [];
      boards, regions, liveRegion := [b], [], region;
      Repr := {this, items} + region;
    }

    /** An independent copy of a record. */
    static method CopySlot(s: Slot) returns (copy: Slot)
      ensures SnakeOf(copy) == SnakeOf(s)
      ensures copy.body != null ==> fresh(copy.body)
    {
      if s.bodyLen > 0 {
        var body := new Coord[s.bodyLen](k requires 0 <= k < s.bodyLen reads s.body => s.body[k]);
        assert body[..s.bodyLen] == s.body[..s.bodyLen];
        copy := s.(body := body);
      } else {
        copy := s.(body := null);
      }
    }

    method CaptureFrame(ghost b: Board) returns (frame: Frame, ghost region: set<object>)
      requires foodCount <= food.Length && Holds(b)
      ensures Captured(frame, b) && Separate(frame.slots)
      ensures fresh(region) && Within(frame.slots, region)
      ensures |frame.slots| == |live| && |frame.food| == foodCount
    {
      var copies: seq<Slot> := [];
      region := {};
      for i := 0 to |live|
        invariant |copies| == i && Separate(copies)
        invariant fresh(region) && Within(copies, region)
        invariant forall k :: 0 <= k < i ==> SnakeOf(copies[k]) == b.snakes[k]
      {
        var copy := CopySlot(live[i]);
        copies := copies + [copy];
        region := if copy.body == null then region else region + {copy.body};
      }
      frame := Frame(copies, food[..foodCount]);
    }

    /** Shifts a body one segment back, into a larger array when it grows, and sets the new head. */
    static method ShiftBody(snake: Slot, target: Coord, grew: bool) returns (body: array<Coord>)
      requires snake.bodyLen > 0
      modifies snake.body
      ensures body == snake.body || fresh(body)
      ensures body.Length >= snake.bodyLen + (if grew then 1 else 0)
      ensures body[..snake.bodyLen + (if grew then 1 else 0)] == BodyAfter(old(SnakeOf(snake)).body, target, grew)
    {
      body := snake.body;
      ghost var was := body[..snake.bodyLen];
      if grew {
        body := new Coord[snake.bodyLen + 1](k requires 0 <= k <= snake.bodyLen reads snake.body =>
          if k < snake.bodyLen then snake.body[k] else target);
      }
      var copyCount := if grew then snake.bodyLen else snake.bodyLen - 1;
      assert body[..copyCount] == was[..copyCount];
      forall k | 1 <= k <= copyCount {
        body[k] := body[k - 1];
      }
      body[0] := target;
      assert body[..copyCount + 1] == [target] + was[..copyCount];
    }

    /** Moves one record in place and marks the food it eats. */
    method MoveLiveSnake(i: nat, move: Move, eaten: seq<bool>, ghost b: Board) returns (marked: seq<bool>)
      requires i < |live| && foodCount <= food.Length && PlayedOn(b)
      requires live[i].bodyLen > 0 && move != Invalid && |eaten| == foodCount
      modifies this`live, live[i].body
      ensures |live| == |old(live)| && forall j :: 0 <= j < |live| && j != i ==> live[j] == old(live)[j]
      ensures live[i].body == old(live[i].body) || fresh(live[i].body)
      ensures SnakeOf(live[i]) == MovedSnake(b, old(SnakeOf(live[i])), move)
      ensures |marked| == |eaten|
      ensures forall f :: 0 <= f < |eaten| ==>
        (marked[f] <==> eaten[f] || FirstIndex(b.food, MoveStep(old(SnakeOf(live[i])).body[0], move)) == f)
    {
      var snake := live[i];
      var target := MoveStep(snake.body[0], move);
      var foodIndex := FirstIndex(food[..foodCount], target);
      var ateFood := foodIndex < foodCount;
      marked := if ateFood then eaten[foodIndex := true] else eaten;
      var grew := ateFood || ruleset == "constrictor";
      var newLen := snake.bodyLen + (if grew then 1 else 0);
      var body := ShiftBody(snake, target, grew);
      var health := snake.health - 1;
      if target in hazards {
        health := health - hazardDamage;
      }
      if ateFood {
        health := 100;
      }
      live := live[i := Record(snake.id, snake.name, health, body, newLen, newLen)];
    }

    /** What the advance of one record yields: the scratch entries of mover m. */
    ghost predicate Advanced(m: Mover, s: Slot, head: Coord, dead: bool, causes: set<Cause>)
      reads s.body
    {
      SnakeOf(s) == m.snake && head == m.head && dead == m.dead && causes == m.causes
    }

    method AdvanceSnake(i: nat, move: Move, eaten: seq<bool>, ghost b: Board)
      returns (head: Coord, dead: bool, causes: set<Cause>, marked: seq<bool>)
      requires i < |live| && foodCount <= food.Length && PlayedOn(b)
      requires |eaten| == foodCount && Separate(live)
      modifies this`live, live[i].body
      ensures |live| == |old(live)| && forall j :: 0 <= j < |live| && j != i ==> live[j] == old(live)[j]
      ensures forall j :: 0 <= j < |live| && j != i ==> SnakeOf(live[j]) == old(SnakeOf(live[j]))
      ensures live[i].body == old(live[i].body) || fresh(live[i].body)
      ensures Separate(live)
      ensures Advanced(Advance(b, old(SnakeOf(live[i])), move), live[i], head, dead, causes)
      ensures |marked| == |eaten|
      ensures var m := Advance(b, old(SnakeOf(live[i])), move);
              forall f :: 0 <= f < |eaten| ==> (marked[f] <==> eaten[f] || (m.moved && FirstIndex(b.food, m.head) == f))
    {
      dead, causes, marked := false, {}, eaten;
      if move == Invalid || live[i].bodyLen == 0 {
        dead := true;
        causes := causes + {InvalidCommand};
        head := if live[i].bodyLen == 0 then Coord(0, 0) else live[i].body[0];
        return;
      }
      head := MoveStep(live[i].body[0], move);
      ghost var before := live;
      marked := MoveLiveSnake(i, move, eaten, b);
      ReplaceKeepsSeparate(before, live, i);
      if !(0 <= head.x < width && 0 <= head.y < height) {
        dead := true;
        causes := causes + {Wall};
      }
      if live[i].health <= 0 {
        dead := true;
        causes := causes + (if head in hazards then {Hazard} else {Starvation});
      }
    }

    /** The scratch lists describe the movers, whose snakes are in the records. */
    ghost predicate Recorded(ms: seq<Mover>, heads: seq<Coord>, dead: seq<bool>, causes: seq<set<Cause>>)
      reads this`live, Bodies(live)
    {
      && |heads| == |dead| == |causes| <= |ms| == |live|
      && forall k :: 0 <= k < |heads| ==> Advanced(ms[k], live[k], heads[k], dead[k], causes[k])
    }

    method AdvanceSnakes(commands: seq<Command>, ghost b: Board)
      returns (heads: seq<Coord>, dead: seq<bool>, causes: seq<set<Cause>>, eaten: seq<bool>)
      requires foodCount <= food.Length && Holds(b) && Separate(live)
      requires forall k :: 0 <= k < |live| ==> live[k].body != food
      modifies this`live, Bodies(live)
      ensures PlayedOn(b)
      ensures |heads| == |live| && Recorded(Movers(b, commands), heads, dead, causes)
      ensures |live| == |old(live)|
      ensures forall k :: 0 <= k < |live| ==> live[k].body == old(live)[k].body || fresh(live[k].body)
      ensures Separate(live)
      ensures |eaten| == foodCount
      ensures forall f :: 0 <= f < foodCount ==> (eaten[f] <==> EatenItem(b.food, Movers(b, commands), |live|, f))
    {
      ghost var ms := Movers(b, commands);
      heads, dead, causes, eaten := [], [], [], seq(foodCount, _ => false);
      for i := 0 to |live|
        invariant PlayedOn(b) && |eaten| == foodCount && |live| == |old(live)|
        invariant |heads| == i && Recorded(ms, heads, dead, causes)
        invariant forall k :: i <= k < |live| ==> live[k] == old(live)[k] && SnakeOf(live[k]) == b.snakes[k]
        invariant forall k :: 0 <= k < |live| ==> live[k].body == old(live)[k].body || fresh(live[k].body)
        invariant Separate(live)
        invariant forall f :: 0 <= f < foodCount ==> (eaten[f] <==> EatenItem(b.food, ms, i, f))
      {
        var move := MoveFor(live[i].id, commands);
        assert live[i].id == b.snakes[i].id;
        var head, died, why, marked := AdvanceSnake(i, move, eaten, b);
        heads, dead, causes, eaten := heads + [head], dead + [died], causes + [why], marked;
      }
    }

    /** The records hold the snakes of the movers. */
    ghost predicate HoldMovers(ms: seq<Mover>)
      reads this`live, Bodies(live)
    {
      |ms| == |live| && forall k :: 0 <= k < |live| ==> SnakeOf(live[k]) == ms[k].snake
    }

    /** Whether head lies on a non-head segment of record j. */
    method SegmentHit(head: Coord, j: nat) returns (hit: bool)
      requires j < |live|
      ensures hit <==> exists k :: 1 <= k < |SnakeOf(live[j]).body| && SnakeOf(live[j]).body[k] == head
    {
      hit := false;
      ghost var body := SnakeOf(live[j]).body;
      var k := 1;
      while k < live[j].bodyLen
        invariant k >= 1
        invariant hit <==> exists p :: 1 <= p < k && p < |body| && body[p] == head
      {
        assert live[j].body[k] == body[k];
        if head == live[j].body[k] {
          hit := true;
        }
        k := k + 1;
      }
    }

    /** All body collisions of one snake that is not dead yet. */
    method BodyCollisions(ghost ms: seq<Mover>, i: nat, head: Coord) returns (hit: bool, why: set<Cause>)
      requires HoldMovers(ms) && i < |ms| && head == ms[i].head
      ensures hit <==> HitsBody(ms, i)
      ensures !ms[i].dead ==> ms[i].causes + why == BodyCauses(ms, i)
    {
      hit, why := false, {};
      for j := 0 to |live|
        invariant hit <==> exists y :: 0 <= y < j && BodyHit(ms, i, y)
        invariant why == (if i < j && BodyHit(ms, i, i) then {SelfBody} else {})
                       + (if exists y :: 0 <= y < j && y != i && BodyHit(ms, i, y) then {OtherBody} else {})
      {
        var met := SegmentHit(head, j);
        assert met <==> BodyHit(ms, i, j);
        if met {
          hit := true;
          why := why + (if i == j then {SelfBody} else {OtherBody});
        }
      }
    }

    method ResolveBodyCollisions(ghost ms: seq<Mover>, heads: seq<Coord>, dead: seq<bool>, causes: seq<set<Cause>>)
      returns (died: seq<bool>, why: seq<set<Cause>>)
      requires HoldMovers(ms)
      requires |heads| == |dead| == |causes| == |ms|
      requires forall k :: 0 <= k < |ms| ==> heads[k] == ms[k].head && dead[k] == ms[k].dead && causes[k] == ms[k].causes
      ensures |died| == |why| == |ms|
      ensures forall k :: 0 <= k < |ms| ==> (died[k] <==> !Standing(ms, k)) && why[k] == BodyCauses(ms, k)
    {
      died, why := dead, causes;
      for i := 0 to |live|
        invariant |died| == |why| == |ms|
        invariant forall k :: 0 <= k < i ==> (died[k] <==> !Standing(ms, k)) && why[k] == BodyCauses(ms, k)
        invariant forall k :: i <= k < |ms| ==> died[k] == ms[k].dead && why[k] == ms[k].causes
      {
        if !died[i] {
          var hit, reason := BodyCollisions(ms, i, heads[i]);
          if hit {
            died := died[i := true];
          }
          why := why[i := why[i] + reason];
        }
      }
    }

    /** Compares two live snakes that meet head to head. */
    method SettlePair(ghost ms: seq<Mover>, dead: seq<bool>, causes: seq<set<Cause>>, i: nat, j: nat)
      returns (died: seq<bool>, why: seq<set<Cause>>)
      requires i < j < |ms| <= |live| && Blamed(ms, dead, causes)
      requires SnakeOf(live[i]) == ms[i].snake && SnakeOf(live[j]) == ms[j].snake
      requires Standing(ms, i) && Standing(ms, j)
      ensures died == Compared(dead, ms[i].snake.EffectiveLength(), ms[j].snake.EffectiveLength(), i, j)
      ensures Blamed(ms, died, why)
    {
      var left, right := RecordedLength(live[i]), RecordedLength(live[j]);
      if left > right {
        died, why := dead[j := true], causes[j := causes[j] + {HeadToHead}];
      } else if right > left {
        died, why := dead[i := true], causes[i := causes[i] + {HeadToHead}];
      } else {
        died, why := dead[i := true], causes[i := causes[i] + {HeadToHead}];
        died, why := died[j := true], why[j := why[j] + {HeadToHead}];
      }
    }

    method ResolveHeadCollisions(ghost ms: seq<Mover>, heads: seq<Coord>, dead: seq<bool>, causes: seq<set<Cause>>)
      returns (died: seq<bool>, why: seq<set<Cause>>)
      requires HoldMovers(ms)
      requires |heads| == |dead| == |causes| == |ms|
      requires forall k :: 0 <= k < |ms| ==>
        heads[k] == ms[k].head && (dead[k] <==> !Standing(ms, k)) && causes[k] == BodyCauses(ms, k)
      ensures |died| == |why| == |ms|
      ensures forall k :: 0 <= k < |ms| ==> (died[k] <==> !Survives(ms, k)) && why[k] == CauseOf(ms, k)
    {
      died, why := dead, causes;
      PassStarts(ms, died);
      for i := 0 to |live|
        invariant PassAt(ms, died, i, i + 1)
        invariant Blamed(ms, died, why)
      {
        if died[i] {
          PassSkipsRow(ms, died, i);
        } else {
          for j := i + 1 to |live|
            invariant PassAt(ms, died, i, j)
            invariant Blamed(ms, died, why)
          {
            if died[j] || heads[i] != heads[j] {
              PassSkipsPair(ms, died, i, j);
            } else {
              PassComparesPair(ms, died, i, j);
              died, why := SettlePair(ms, died, why, i, j);
            }
          }
          PassNextRow(ms, died, i);
        }
      }
      PassEnds(ms, died);
    }

    /** Moves the surviving records to the front, in order, and drops the others. */
    method CompactLiveSnakes(ghost ms: seq<Mover>, dead: seq<bool>)
      requires |ms| == |dead| == |live|
      requires forall k :: 0 <= k < |ms| ==> (dead[k] <==> !Survives(ms, k))
      modifies this`live
      ensures live == Select(old(live), Kept(ms, |ms|))
    {
      var count, write := |live|, 0;
      for read := 0 to count
        invariant |live| == count && write == |Kept(ms, read)| <= read
        invariant live[..write] == Select(old(live), Kept(ms, read))
        invariant live[read..] == old(live)[read..]
      {
        ghost var front := live[..write];
        assert live[read] == old(live)[read] by { assert live[read..][0] == old(live)[read..][0]; }
        if dead[read] {
          live := live[read := CLEARED];
        } else {
          if write != read {
            live := live[write := live[read]];
            live := live[read := CLEARED];
          }
          write := write + 1;
        }
        assert live[..write] == if dead[read] then front else front + [old(live)[read]];
        assert live[read + 1..] == old(live)[read..][1..];
      }
      live := live[..write];
    }

    /** Closes the gaps that eaten food leaves in the buffer. */
    method ApplyFoodRemoval(ghost ms: seq<Mover>, eaten: seq<bool>)
      requires |eaten| == foodCount <= food.Length
      requires forall f :: 0 <= f < foodCount ==> (eaten[f] <==> EatenItem(food[..foodCount], ms, |ms|, f))
      modifies this`foodCount, food
      ensures foodCount <= old(foodCount)
      ensures food[..foodCount] == FoodLeft(old(food[..foodCount]), ms, old(foodCount))
    {
      ghost var items := food[..foodCount];
      var write := 0;
      for f := 0 to foodCount
        invariant foodCount == old(foodCount) && write == |FoodLeft(items, ms, f)| <= f
        invariant food[..write] == FoodLeft(items, ms, f)
        invariant food[f..foodCount] == items[f..]
      {
        assert food[f] == items[f] by { assert food[f..foodCount][0] == items[f..][0]; }
        if !eaten[f] {
          food[write] := food[f];
          write := write + 1;
        }
        assert food[f + 1..foodCount] == items[f + 1..] by {
          assert items[f..][1..] == items[f + 1..];
        }
      }
      foodCount := write;
    }

    /** Every array now owned by a live record was owned by one before or is new. */
    twostate predicate KeepsArrays()
      reads this`live
    {
      forall k :: 0 <= k < |live| && live[k].body != null ==>
        live[k].body in old(Bodies(live)) || fresh(live[k].body)
    }

    /** Moves every snake in its record and decides who dies, and why. */
    method AdvanceAndResolve(commands: seq<Command>, ghost b: Board)
      returns (dead: seq<bool>, causes: seq<set<Cause>>, eaten: seq<bool>)
      requires foodCount <= food.Length && Holds(b) && Separate(live)
      requires forall k :: 0 <= k < |live| ==> live[k].body != food
      modifies this`live, Bodies(live)
      ensures PlayedOn(b) && HoldMovers(Movers(b, commands)) && Separate(live) && KeepsArrays()
      ensures |live| == |old(live)| && causes == Causes(b, commands)
      ensures |dead| == |live| && forall k :: 0 <= k < |live| ==> (dead[k] <==> !Survives(Movers(b, commands), k))
      ensures |eaten| == foodCount
      ensures forall f :: 0 <= f < foodCount ==> (eaten[f] <==> EatenItem(b.food, Movers(b, commands), |live|, f))
    {
      ghost var ms := Movers(b, commands);
      var heads;
      heads, dead, causes, eaten := AdvanceSnakes(commands, b);
      dead, causes := ResolveBodyCollisions(ms, heads, dead, causes);
      dead, causes := ResolveHeadCollisions(ms, heads, dead, causes);
    }

    /** Keeps the surviving snakes, with their arrays, and the food not eaten. */
    method Commit(ghost ms: seq<Mover>, dead: seq<bool>, eaten: seq<bool>)
      requires foodCount <= food.Length && HoldMovers(ms) && Separate(live)
      requires forall k :: 0 <= k < |live| ==> live[k].body != food
      requires |dead| == |live| && forall k :: 0 <= k < |ms| ==> (dead[k] <==> !Survives(ms, k))
      requires |eaten| == foodCount
      requires forall f :: 0 <= f < foodCount ==> (eaten[f] <==> EatenItem(food[..foodCount], ms, |ms|, f))
      modifies this`live, this`foodCount, food
      ensures |live| <= |old(live)| && foodCount <= old(foodCount)
      ensures Represent(live, Survivors(ms, |ms|)) && Separate(live)
      ensures food[..foodCount] == FoodLeft(old(food[..foodCount]), ms, old(foodCount))
      ensures forall k :: 0 <= k < |live| ==> live[k] in old(live)
    {
      CompactLiveSnakes(ms, dead);
      SelectKeepsSeparate(old(live), Kept(ms, |ms|));
      SelectSurvivors(old(live), ms);
      ApplyFoodRemoval(ms, eaten);
    }

    /** Changes the live board to its successor; the arrays it ends up with were its own or are new. */
    method PlayMoves(commands: seq<Command>, ghost b: Board, ghost region: set<object>)
      returns (causes: seq<set<Cause>>, ghost gained: set<object>)
      requires foodCount <= food.Length && Holds(b) && Separate(live)
      requires Within(live, region) && food !in region && this !in region
      modifies this`live, this`foodCount, food, region
      ensures causes == Causes(b, commands)
      ensures |live| <= |old(live)| && foodCount <= old(foodCount)
      ensures Holds(Step(b, commands)) && Separate(live)
      ensures fresh(gained) && Within(live, region + gained)
    {
      var dead, eaten;
      dead, causes, eaten := AdvanceAndResolve(commands, b);
      gained := Bodies(live) - region;
      Commit(Movers(b, commands), dead, eaten);
    }

    /** The board the searches read. */
    method CurrentBoard() returns (b: Board)
      requires Valid()
      ensures b == Top()
    {
      var snakes: seq<Snake> := [];
      for i := 0 to |live|
        invariant |snakes| == i && forall k :: 0 <= k < i ==> snakes[k] == SnakeOf(live[k])
      {
        var s := live[i];
        var body := if s.bodyLen == 0 then [] else s.body[..s.bodyLen];
        snakes := snakes + [Snake(s.id, s.name, s.health, body, s.length)];
      }
      assert snakes == Top().snakes;
      b := Board(width, height, snakes, food[..foodCount], hazards, ruleset, hazardDamage);
    }

    /** Saves the live board on the undo stack; the top of the stack of boards is doubled. */
    method PushFrame()
      requires Valid()
      modifies this`undo, this`boards, this`regions, this`Repr
      ensures Valid() && fresh(Repr - old(Repr)) && old(Repr) <= Repr
      ensures boards == old(boards) + [old(Top())]
    {
      var frame, region := CaptureFrame(Top());
      hide Step, FramesOwn, RegionsInside, FramesShrink;
      ghost var all := Repr - {this, food} - liveRegion;
      PushKeepsOwnership(undo, regions, frame, region, all, snakeCapacity, food.Length);
      undo := undo + [frame];
      boards := boards + [Top()];
      regions := regions + [region];
      Repr := Repr + region;
      assert Repr - {this, food} - liveRegion == all + region;
    }

    /** Replaces the live board by its successor. */
    method ReplaceTop(commands: seq<Command>) returns (causes: seq<set<Cause>>)
      requires Valid()
      modifies Repr
      ensures Valid() && fresh(Repr - old(Repr))
      ensures boards == old(boards)[..old(|boards|) - 1] + [Step(old(Top()), commands)]
      ensures causes == Causes(old(Top()), commands)
    {
      hide Step, Causes, FramesOwn, RegionsInside, FramesShrink;
      ghost var b, below := Top(), boards[..|boards| - 1];
      ghost var all := Repr - {this, food} - liveRegion;
      FramesStayInside(undo, regions, all);
      ghost var gained;
      causes, gained := PlayMoves(commands, b, liveRegion);
      assert FramesHold(undo, below);
      MoveKeepsFrames(undo, |old(live)|, old(foodCount), |live|, foodCount, snakeCapacity, food.Length);
      boards := below + [Step(b, commands)];
      liveRegion := liveRegion + gained;
      Repr := Repr + gained;
      assert Repr - {this, food} - liveRegion == all && boards[..|boards| - 1] == below;
    }

    /** Makes a joint move: the stack of boards grows by the successor of its top. */
    method MakeMovesDetailed(commands: seq<Command>, capacity: nat) returns (outCauses: seq<set<Cause>>)
      requires Valid()
      modifies Repr
      ensures Valid() && fresh(Repr - old(Repr))
      ensures boards == old(boards) + [Step(old(Top()), commands)]
      ensures |outCauses| == if |old(live)| < capacity then |old(live)| else capacity
      ensures outCauses <= Causes(old(Top()), commands)
    {
      var count := |live|;
      PushFrame();
      var causes := ReplaceTop(commands);
      outCauses := causes[..if count < capacity then count else capacity];
    }

    /** Hands the arrays of a frame, and the food it saved, back to the live board. */
    method RestoreFrame(frame: Frame, ghost b: Board)
      requires |frame.food| <= food.Length && Captured(frame, b)
      requires forall k :: 0 <= k < |frame.slots| ==> frame.slots[k].body != food
      modifies this`live, this`foodCount, food
      ensures live == frame.slots && foodCount == |frame.food| && Holds(b)
    {
      live := frame.slots;
      forall f | 0 <= f < |frame.food| {
        food[f] := frame.food[f];
      }
      foodCount := |frame.food|;
      assert food[..foodCount] == frame.food;
    }

    /** Unmakes the last joint move: the stack loses its top, and the board below is live again. */
    method Unmake() returns (ok: bool)
      requires Valid()
      modifies Repr
      ensures Valid() && Repr == old(Repr)
      ensures ok <==> old(|boards|) > 1
      ensures boards == if ok then old(boards)[..old(|boards|) - 1] else old(boards)
    {
      if undo == [] {
        return false;
      }
      hide FramesOwn, RegionsInside;
      var frame := undo[|undo| - 1];
      ghost var below := boards[..|boards| - 1];
      FramesStayInside(undo, regions, Repr - {this, food} - liveRegion);
      PopKeepsOwnership(undo, regions, Repr - {this, food} - liveRegion, |live|, foodCount, snakeCapacity, food.Length);
      assert |frame.food| <= food.Length;
      RestoreFrame(frame, below[|undo| - 1]);
      assert FramesHold(undo, below);
      undo := undo[..|undo| - 1];
      boards, liveRegion, regions := boards[..|boards| - 1], regions[|regions| - 1], regions[..|regions| - 1];
      ok := true;
    }
  }
}
