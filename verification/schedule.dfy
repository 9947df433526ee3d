/** The system schedule: a fixed-rate tick (movement, then the death check)
    and a per-frame step (input, eating, then food placement if none
    exists), driven by an explicit sequence of events. */
module Schedule {
  import opened Options
  import opened Grid
  import opened Input
  import opened Food
  import opened Snake

  /** A game in progress, or the final state once the death check fired. */
  datatype Game = Playing(state: State) | Over(state: State)

  /** What the outer loop does next: one fixed tick, or one frame with the
      held arrows and the random draws the food spawner may use. */
  datatype Event = TickEvent | FrameEvent(keys: Keys, draws: seq<Draw>)

  /** One fixed tick: move, then judge the moved state. */
  function Tick(s: State): (g: Game)
    ensures g.state == Move(s)
    ensures g.Over? <==> !InBox(g.state.head) || g.state.head in g.state.body
  {
    var moved := Move(s);
    if IsDead(moved) then Over(moved) else Playing(moved)
  }

  /** One frame: input, then eating, then food placement when the food is
      gone. The spawner's rejection set is the vacuous query, so the first
      draw is always taken. */
  function Frame(s: State, keys: Keys, draws: seq<Draw>): (r: State)
    ensures r.heading == HandleInput(s.heading, keys)
    ensures r.head == s.head
    ensures s.food == Some(s.head) ==> r.body == s.body + [s.head]
    ensures s.food != Some(s.head) ==> r.body == s.body
    ensures s.food.Some? && s.food != Some(s.head) ==> r.food == s.food
    ensures s.food.None? || s.food == Some(s.head) ==>
      (if |draws| > 0 then r.food == Some(RandomPosition(draws[0])) else r.food.None?)
  {
    var turned := s.(heading := HandleInput(s.heading, keys));
    var fed := Eat(turned);
    if FoodGone(fed) then
      FoodQueryIsEmpty(fed);
      fed.(food := FirstFree(FoodQueryCells(fed), draws))
    else
      fed
  }

  /** One event; a finished game ignores every further event. */
  function Advance(g: Game, e: Event): (g': Game)
    ensures g.Over? ==> g' == g
    ensures g.Playing? && e.TickEvent? ==> g' == Tick(g.state)
    ensures g.Playing? && e.FrameEvent? ==> g' == Playing(Frame(g.state, e.keys, e.draws))
  {
    match g
    case Over(_) => g
    case Playing(s) =>
      match e
      case TickEvent => Tick(s)
      case FrameEvent(keys, draws) => Playing(Frame(s, keys, draws))
  }

  /** The outer loop: the events in order. */
  function Run(g: Game, events: seq<Event>): (r: Game)
    ensures r.Playing? ==> g.Playing?
    decreases |events|
  {
    if |events| == 0 then g else Run(Advance(g, events[0]), events[1..])
  }

  /** What every live state reached from the start satisfies: a neck next to
      the head, every snake cell strictly inside the walls, and the food (if
      any) inside the food range. */
  ghost predicate Inv(s: State)
  {
    && |s.body| >= 1
    && Adjacent(s.body[0], s.head)
    && InBox(s.head)
    && (forall i :: 0 <= i < |s.body| ==> InBox(s.body[i]))
    && (s.food.Some? ==> InFoodRange(s.food.value))
  }

  lemma SetupInv()
    ensures Inv(Setup())
  {
  }

  /** A tick that does not end the game keeps the invariant, and every tick
      keeps the chain length. */
  lemma TickInv(s: State)
    requires Inv(s)
    ensures |Chain(Tick(s).state)| == |Chain(s)|
    ensures Tick(s).Playing? ==> Inv(Tick(s).state)
  {
  }

  /** A frame keeps the invariant; it lengthens the chain by one exactly
      when the head is on the food. */
  lemma FrameInv(s: State, keys: Keys, draws: seq<Draw>)
    requires Inv(s)
    ensures Inv(Frame(s, keys, draws))
    ensures |Chain(Frame(s, keys, draws))| == |Chain(s)| + (if s.food == Some(s.head) then 1 else 0)
  {
  }

  /** A finished game stays finished and unchanged. */
  lemma {:induction false} OverIsFinal(s: State, events: seq<Event>)
    ensures Run(Over(s), events) == Over(s)
    decreases |events|
  {
    if |events| > 0 {
      OverIsFinal(s, events[1..]);
    }
  }

  /** Every live state reached from a live state satisfying the invariant
      satisfies it too. */
  lemma {:induction false} RunInv(g: Game, events: seq<Event>)
    requires g.Playing? ==> Inv(g.state)
    ensures Run(g, events).Playing? ==> Inv(Run(g, events).state)
    decreases |events|
  {
    if |events| > 0 {
      var next := Advance(g, events[0]);
      if g.Over? {
        OverIsFinal(g.state, events);
      } else {
        match events[0] {
          case TickEvent => TickInv(g.state);
          case FrameEvent(keys, draws) => FrameInv(g.state, keys, draws);
        }
        RunInv(next, events[1..]);
      }
    }
  }

  /** The snake never gets shorter, whatever the events. */
  lemma {:induction false} RunNeverShrinks(g: Game, events: seq<Event>)
    requires g.Playing? ==> Inv(g.state)
    ensures |Chain(Run(g, events).state)| >= |Chain(g.state)|
    decreases |events|
  {
    if |events| > 0 {
      var next := Advance(g, events[0]);
      if g.Over? {
        OverIsFinal(g.state, events);
      } else {
        match events[0] {
          case TickEvent => TickInv(g.state);
          case FrameEvent(keys, draws) => FrameInv(g.state, keys, draws);
        }
        RunNeverShrinks(next, events[1..]);
      }
    }
  }

  /** Every live state of every game satisfies the invariant. */
  lemma ReachableInv(events: seq<Event>)
    ensures Run(Playing(Setup()), events).Playing? ==> Inv(Run(Playing(Setup()), events).state)
    ensures |Chain(Run(Playing(Setup()), events).state)| >= 2
  {
    SetupInv();
    RunInv(Playing(Setup()), events);
    RunNeverShrinks(Playing(Setup()), events);
  }

  predicate FitsI32(p: Pos)
  {
    -0x8000_0000 <= p.x < 0x8000_0000 && -0x8000_0000 <= p.y < 0x8000_0000
  }

  /** From a live state the next move cannot overflow a 32-bit coordinate,
      so unbounded integers model the program's 32-bit cells exactly. */
  lemma MoveFitsI32(s: State)
    requires Inv(s)
    ensures forall i :: 0 <= i < |Chain(Move(s))| ==> FitsI32(Chain(Move(s))[i])
  {
  }

  /** A reversed heading drives the head into the neck's old cell, which the
      second segment has just moved onto: with three or more cells the tick
      ends the game. */
  lemma ReversalIntoNeck(s: State, m: Dir)
    requires |s.body| >= 2
    requires Step(s.body[0], m) == s.head
    requires s.heading == Opposite(m)
    ensures Tick(s).Over?
    ensures Tick(s).state.head == Tick(s).state.body[1]
  {
  }

  /** The reverse check compares with the stored heading, not the last move:
      two input frames before a tick (a perpendicular arrow, then the
      reverse arrow) turn a snake of three or more cells into its own neck. */
  lemma TwoFramesThenTickKills(s: State, m: Dir, draws1: seq<Draw>, draws2: seq<Draw>)
    requires |s.body| >= 2
    requires Step(s.body[0], m) == s.head
    ensures Tick(Frame(Frame(s, Only(Perpendicular(m)), draws1), Only(Opposite(m)), draws2)).Over?
  {
  }

  /** A two-cell snake reverses without dying: head and neck swap cells. */
  lemma ShortSnakeTurnsAround()
    ensures Tick(Frame(Frame(Setup(), Only(Up), [Draw(0, 0)]), Only(Left), [Draw(0, 0)])) ==
      Playing(State(Left, Pos(-1, 0), [Pos(0, 0)], Some(Pos(-19, -14))))
  {
  }

  /** Because the spawner's rejection set is vacuous, food can be placed on
      the snake: a draw naming the neck's cell puts the food there. */
  lemma FoodMayLandOnSnake()
    ensures Frame(Setup(), NoKeys, [Draw(18, 14)]).food == Some(Pos(-1, 0))
    ensures Pos(-1, 0) in Chain(Setup())
  {
    assert RandomPosition(Draw(18, 14)) == Pos(-1, 0) by {
      GenRangeReaches(FoodMinX, FoodEndX, -1);
      GenRangeReaches(FoodMinY, FoodEndY, 0);
    }
  }

  /** Rejection against the whole chain would have kept the food off it. */
  lemma ChainRejectionAvoidsSnake(s: State, draws: seq<Draw>)
    ensures var f := FirstFree(set i | 0 <= i < |Chain(s)| :: Chain(s)[i], draws);
      f.Some? ==> f.value !in Chain(s)
  {
  }

  /** One tick from the start with no input. */
  lemma ScenarioFirstTick()
    ensures Tick(Setup()) == Playing(State(Right, Pos(1, 0), [Pos(0, 0)], None))
  {
  }

  /** Up then Right before a tick: the later accepted arrow wins. */
  lemma ScenarioLastInputWins()
    ensures HandleInput(HandleInput(Right, Only(Up)), Only(Right)) == Right
  {
  }

  /** Reaching x = 20 ends the game on that tick, and nothing happens after. */
  lemma ScenarioWallHit(events: seq<Event>)
    ensures Tick(State(Right, Pos(19, 0), [Pos(18, 0)], None)).Over?
    ensures Run(Tick(State(Right, Pos(19, 0), [Pos(18, 0)], None)), events) ==
      Over(State(Right, Pos(20, 0), [Pos(19, 0)], None))
  {
    OverIsFinal(State(Right, Pos(20, 0), [Pos(19, 0)], None), events);
  }

  /** The head moves onto food at (3, 3); the next frame eats it, grows the
      chain, and places new food from the first draw. */
  lemma ScenarioEat()
    ensures Tick(State(Right, Pos(2, 3), [Pos(1, 3)], Some(Pos(3, 3)))) ==
      Playing(State(Right, Pos(3, 3), [Pos(2, 3)], Some(Pos(3, 3))))
    ensures Frame(State(Right, Pos(3, 3), [Pos(2, 3)], Some(Pos(3, 3))), NoKeys, [Draw(0, 0)]) ==
      State(Right, Pos(3, 3), [Pos(2, 3), Pos(3, 3)], Some(Pos(-19, -14)))
  {
  }
}
