/** Arrow-key handling: the heading changes to a held arrow unless that
    arrow points straight back along the stored heading. */
module Input {
  import opened Options
  import opened Grid

  /** Which of the four arrow keys are held during a frame. */
  datatype Keys = Keys(up: bool, down: bool, left: bool, right: bool)

  const NoKeys: Keys := Keys(false, false, false, false)

  predicate Pressed(keys: Keys, d: Dir)
  {
    match d
    case Up => keys.up
    case Down => keys.down
    case Left => keys.left
    case Right => keys.right
  }

  /** Exactly one arrow held: the one for `d`. */
  function Only(d: Dir): (keys: Keys)
    ensures forall e :: Pressed(keys, e) <==> e == d
  {
    Keys(d == Up, d == Down, d == Left, d == Right)
  }

  /** The heading after one input frame. Arrows are tried in the order
      Up, Down, Left, Right, and an arrow opposite to the stored heading is
      skipped. */
  function HandleInput(heading: Dir, keys: Keys): (r: Dir)
    ensures r != Opposite(heading)
    ensures keys == NoKeys ==> r == heading
    ensures r == heading || Pressed(keys, r)
  {
    if keys.up && heading != Down then Up
    else if keys.down && heading != Up then Down
    else if keys.left && heading != Right then Left
    else if keys.right && heading != Left then Right
    else heading
  }

  /** The order in which arrows are examined. */
  const Priority: seq<Dir> := [Up, Down, Left, Right]

  /** Reference reading of the input rule: the first heading of `order`
      whose arrow is held and which does not reverse `heading`. */
  function FirstAccepted(heading: Dir, keys: Keys, order: seq<Dir>): (r: Option<Dir>)
    ensures r.Some? ==> r.value in order && Pressed(keys, r.value) && r.value != Opposite(heading)
    ensures r.None? <==>
      forall i :: 0 <= i < |order| ==> !Pressed(keys, order[i]) || order[i] == Opposite(heading)
    ensures r.Some? ==>
      exists k :: 0 <= k < |order| && order[k] == r.value
        && forall j :: 0 <= j < k ==> !Pressed(keys, order[j]) || order[j] == Opposite(heading)
    decreases |order|
  {
    if |order| == 0 then None
    else if Pressed(keys, order[0]) && order[0] != Opposite(heading) then Some(order[0])
    else FirstAccepted(heading, keys, order[1..])
  }

  /** The input rule picks the first acceptable held arrow in priority
      order, and keeps the heading when there is none. */
  lemma HandleInputFollowsPriority(heading: Dir, keys: Keys)
    ensures FirstAccepted(heading, keys, Priority).Some? ==>
      HandleInput(heading, keys) == FirstAccepted(heading, keys, Priority).value
    ensures FirstAccepted(heading, keys, Priority).None? ==>
      HandleInput(heading, keys) == heading
  {
  }

  /** Pressing only the reverse arrow never changes the heading. */
  lemma ReverseArrowIgnored(heading: Dir)
    ensures HandleInput(heading, Only(Opposite(heading))) == heading
  {
  }

  /** Two input frames can turn the stored heading into the reverse of the
      heading `m`: first a perpendicular arrow, then the reverse arrow. */
  lemma TwoInputsReverse(heading: Dir, m: Dir)
    ensures HandleInput(HandleInput(heading, Only(Perpendicular(m))), Only(Opposite(m))) == Opposite(m)
  {
  }
}
