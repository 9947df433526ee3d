/** The snake's state and the systems acting on it: start-up, movement,
    death detection and eating. */
module Snake {
  import opened Options
  import opened Grid

  /** The whole simulation state: the stored heading, the head cell, the
      body cells from neck to tail, and the food cell if one exists. */
  datatype State = State(heading: Dir, head: Pos, body: seq<Pos>, food: Option<Pos>)

  /** Every snake cell in anatomical order, head first. */
  function Chain(s: State): seq<Pos>
  {
    [s.head] + s.body
  }

  /** The start of a game: head at the origin heading right, one body
      segment directly behind it, and no food yet. */
  function Setup(): (s: State)
    ensures s.head == Pos(0, 0) && s.heading == Right && s.food.None?
    ensures |Chain(s)| == 2
    ensures s.body[0] == Step(s.head, Opposite(s.heading))
  {
    State(Right, Pos(0, 0), [Pos(-1, 0)], None)
  }

  /** Follow-the-leader: every segment takes the cell its predecessor held,
      the first one taking `prev`, and the last segment's cell is dropped. */
  function Shift(prev: Pos, body: seq<Pos>): (r: seq<Pos>)
    ensures |r| == |body|
    ensures |body| > 0 ==> r[0] == prev
    ensures forall i :: 1 <= i < |body| ==> r[i] == body[i - 1]
    decreases |body|
  {
    if |body| == 0 then [] else [prev] + Shift(body[0], body[1..])
  }

  /** One movement tick: the head steps along the heading and the body
      follows; heading and food are untouched. */
  function Move(s: State): (r: State)
    ensures r.head == Step(s.head, s.heading)
    ensures r.heading == s.heading && r.food == s.food
    ensures |r.body| == |s.body|
    ensures |s.body| > 0 ==> r.body[0] == s.head
    ensures forall i :: 1 <= i < |s.body| ==> r.body[i] == s.body[i - 1]
  {
    s.(head := Step(s.head, s.heading), body := Shift(s.head, s.body))
  }

  /** After a move the chain is the new head followed by the old chain
      without its last cell. */
  lemma MoveFollowsLeader(s: State)
    ensures Chain(Move(s)) == [Step(s.head, s.heading)] + Chain(s)[..|Chain(s)| - 1]
  {
  }

  /** The death check: a wall hit (head on or beyond a half-bound) or the
      head on a body cell. */
  function IsDead(s: State): (dead: bool)
    ensures !dead <==> InBox(s.head) && forall i :: 0 <= i < |s.body| ==> s.body[i] != s.head
  {
    || s.head.x <= -BoundWidth
    || s.head.x >= BoundWidth
    || s.head.y <= -BoundHeight
    || s.head.y >= BoundHeight
    || s.head in s.body
  }

  /** Death in terms of the chain: the head is outside the box or some later
      chain cell repeats it. */
  lemma DeadIffChainRepeatsHead(s: State)
    ensures IsDead(s) <==>
      !InBox(Chain(s)[0]) || exists i :: 1 <= i < |Chain(s)| && Chain(s)[i] == Chain(s)[0]
  {
    var c := Chain(s);
    if s.head in s.body {
      var j :| 0 <= j < |s.body| && s.body[j] == s.head;
      assert c[j + 1] == c[0];
    }
    if exists i :: 1 <= i < |c| && c[i] == c[0] {
      var i :| 1 <= i < |c| && c[i] == c[0];
      assert s.body[i - 1] == s.head;
    }
  }

  /** The eat system: when the head is on the food, the food goes and a new
      last body segment appears at that cell. */
  function Eat(s: State): (r: State)
    ensures r.head == s.head && r.heading == s.heading
    ensures s.food == Some(s.head) ==> r.food.None? && r.body == s.body + [s.head]
    ensures s.food != Some(s.head) ==> r == s
  {
    match s.food
    case Some(f) => if f == s.head then s.(food := None, body := s.body + [f]) else s
    case None => s
  }

  /** Eating lengthens the chain by one exactly when the head is on the food. */
  lemma EatGrowsByOne(s: State)
    ensures |Chain(Eat(s))| == |Chain(s)| + (if s.food == Some(s.head) then 1 else 0)
    ensures Chain(Eat(s))[..|Chain(s)|] == Chain(s)
  {
  }

  /** Straight after eating the new tail sits on the head, so the state would
      count as dead; the next move shifts that segment away and the new tail
      ends on the old tail's cell. Death after eating and moving is the death
      of a move that kept the old tail. */
  lemma EatThenMove(s: State)
    requires s.food == Some(s.head)
    ensures IsDead(Eat(s))
    ensures Move(Eat(s)).body == Chain(s)
    ensures |s.body| > 0 ==> Move(Eat(s)).body[|s.body|] == s.body[|s.body| - 1]
    ensures IsDead(Move(Eat(s))) <==>
      !InBox(Step(s.head, s.heading)) || Step(s.head, s.heading) in s.body
  {
  }

  /** An entity of the running program carrying a position and the marker
      components that say whether it is the head or a body segment. */
  datatype Entity = Entity(pos: Pos, isHead: bool, isBody: bool)

  /** The snake's entities: the head carries only the head marker and every
      body segment only the body marker. */
  function SnakeEntities(s: State): (es: seq<Entity>)
    ensures |es| == |Chain(s)|
    ensures forall i :: 0 <= i < |es| ==> es[i].pos == Chain(s)[i]
  {
    [Entity(s.head, true, false)] + seq(|s.body|, i requires 0 <= i < |s.body| => Entity(s.body[i], false, true))
  }

  /** Cells the food spawner rejects: positions of entities that carry
      BOTH the head marker and the body marker. */
  function FoodQueryCells(s: State): (r: set<Pos>)
    ensures forall p :: p in r ==> p in Chain(s)
  {
    set e | e in SnakeEntities(s) && e.isHead && e.isBody :: e.pos
  }

  /** No entity carries both markers, so the spawner rejects nothing. */
  lemma FoodQueryIsEmpty(s: State)
    ensures FoodQueryCells(s) == {}
  {
  }

  /** Food is spawned only while none exists. */
  function FoodGone(s: State): (gone: bool)
    ensures gone <==> !exists p :: s.food == Some(p)
    ensures gone ==> Eat(s) == s
  {
    s.food.None?
  }
}
