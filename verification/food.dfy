/** Food placement: random candidate cells in a half-open range, and the
    rejection loop that skips candidates found in an occupied set. */
module Food {
  import opened Options
  import opened Grid

  /** One call of the random-position helper: two raw random numbers, the
      first for x and the second for y. */
  datatype Draw = Draw(rx: nat, ry: nat)

  // Half-open candidate ranges: x in [FoodMinX, FoodEndX), y in [FoodMinY, FoodEndY).
  const FoodMinX: int := -GridWidth / 2 + 1
  const FoodEndX: int := GridWidth / 2 - 1
  const FoodMinY: int := -GridHeight / 2 + 1
  const FoodEndY: int := GridHeight / 2 - 1

  /** A number in the half-open range [lo, hi) chosen by a raw draw. */
  function GenRange(lo: int, hi: int, raw: nat): (r: int)
    requires lo < hi
    ensures lo <= r < hi
  {
    lo + raw % (hi - lo)
  }

  /** Every number of the range is chosen by some raw draw. */
  lemma GenRangeReaches(lo: int, hi: int, v: int)
    requires lo <= v < hi
    ensures GenRange(lo, hi, v - lo) == v
  {
  }

  predicate InFoodRange(p: Pos)
  {
    FoodMinX <= p.x < FoodEndX && FoodMinY <= p.y < FoodEndY
  }

  /** The candidate cell a draw stands for. */
  function RandomPosition(d: Draw): (p: Pos)
    ensures InFoodRange(p)
  {
    Pos(GenRange(FoodMinX, FoodEndX, d.rx), GenRange(FoodMinY, FoodEndY, d.ry))
  }

  /** Every cell of the food range is the candidate of some draw. */
  lemma RandomPositionCovers(p: Pos)
    requires InFoodRange(p)
    ensures RandomPosition(Draw(p.x - FoodMinX, p.y - FoodMinY)) == p
  {
    GenRangeReaches(FoodMinX, FoodEndX, p.x);
    GenRangeReaches(FoodMinY, FoodEndY, p.y);
  }

  /** The food range is x in [-19, 18] and y in [-14, 13]. Food can sit
      right next to the deadly line at x = -19 or y = -14, but never on the
      live column x = 19 or the live row y = 14. */
  lemma FoodRangeIsAsymmetric(p: Pos)
    ensures InFoodRange(p) <==> -19 <= p.x <= 18 && -14 <= p.y <= 13
    ensures InBox(Pos(19, 13)) && !InFoodRange(Pos(19, 13))
    ensures InBox(Pos(0, 14)) && !InFoodRange(Pos(0, 14))
    ensures InFoodRange(Pos(-19, -14))
  {
  }

  /** Every candidate lies strictly inside the death bounds. */
  lemma FoodInsideDeathBounds(p: Pos)
    requires InFoodRange(p)
    ensures InBox(p)
  {
  }

  /** Index of the first draw whose candidate is not occupied, or the
      number of draws when every candidate is occupied. */
  function FirstFreeIndex(occupied: set<Pos>, draws: seq<Draw>): (k: nat)
    ensures k <= |draws|
    ensures forall j :: 0 <= j < k ==> RandomPosition(draws[j]) in occupied
    ensures k < |draws| ==> RandomPosition(draws[k]) !in occupied
    decreases |draws|
  {
    if |draws| == 0 || RandomPosition(draws[0]) !in occupied then 0
    else 1 + FirstFreeIndex(occupied, draws[1..])
  }

  /** The cell rejection sampling settles on, if any draw is free. */
  function FirstFree(occupied: set<Pos>, draws: seq<Draw>): (r: Option<Pos>)
    ensures r.Some? ==> r.value !in occupied && InFoodRange(r.value)
    ensures r.None? <==> forall j :: 0 <= j < |draws| ==> RandomPosition(draws[j]) in occupied
    ensures r.Some? ==>
      exists k :: 0 <= k < |draws| && r.value == RandomPosition(draws[k])
        && forall j :: 0 <= j < k ==> RandomPosition(draws[j]) in occupied
  {
    var k := FirstFreeIndex(occupied, draws);
    if k < |draws| then Some(RandomPosition(draws[k])) else None
  }

  /** The rejection loop: draw once, then redraw while the candidate is
      occupied. Returns None when the draws run out first. */
  method SpawnFood(occupied: set<Pos>, draws: seq<Draw>) returns (r: Option<Pos>)
    ensures r == FirstFree(occupied, draws)
  {
    if |draws| == 0 {
      return None;
    }
    var i := 0;
    var candidate := RandomPosition(draws[0]);
    while candidate in occupied
      invariant 0 <= i < |draws|
      invariant candidate == RandomPosition(draws[i])
      invariant forall j :: 0 <= j < i ==> RandomPosition(draws[j]) in occupied
      decreases |draws| - i
    {
      if i + 1 == |draws| {
        return None;
      }
      i := i + 1;
      candidate := RandomPosition(draws[i]);
    }
    r := Some(candidate);
  }
}
