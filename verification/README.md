# Grid snake simulation, modelled in Dafny

A model of the simulation core of a Bevy snake game (`src/main.rs`): the
heading and its input rule, follow-the-leader movement, the death check,
eating and growth, and random food placement by rejection sampling, plus
the order in which the game schedules those systems. Rendering, windowing
and engine plumbing are not modelled.

The model is functional. `Snake.State` holds the stored heading, the head
cell, the body cells in anatomical order (neck first, tail last) and an
optional food cell. `Schedule.Tick` is one fixed-rate step (movement, then
the death check). `Schedule.Frame` is one per-frame step (input, eating,
then food placement when no food exists). `Schedule.Run` drives a game
through a sequence of such events; a game whose death check fired is
`Over` and ignores every later event.

Modules and files:

- `options.dfy` — `Options.Option`.
- `grid.dfy` — `Grid`: cells, headings, the 40×30 grid with half-bounds 20
  and 15, `Opposite`, `Step`.
- `input.dfy` — `Input`: the arrow-key rule and a reference reading of it
  as "first acceptable held arrow in the order Up, Down, Left, Right".
- `food.dfy` — `Food`: half-open random ranges, candidate cells, and the
  rejection loop over an explicit sequence of draws.
- `snake.dfy` — `Snake`: state, start-up, movement, death, eating, and the
  entity query the food spawner uses to reject cells.
- `schedule.dfy` — `Schedule`: tick, frame, runs, the invariant of live
  states, the reversal lemmas and worked scenarios.

Randomness is an explicit sequence of `Food.Draw` values. Each draw holds
two raw numbers that `GenRange` reduces into the half-open range, the way
`gen_range(lo..hi)` returns a value in `[lo, hi)`. Every cell of the range
is reachable (`Food.RandomPositionCovers`).

Quirks of the code that the model makes explicit:

- Food can land on the snake. The spawner's query (src/main.rs:99) asks
  for entities carrying both the head and the body marker, and no entity
  carries both. So the rejection set is empty and the first draw is always
  taken (`Snake.FoodQueryIsEmpty`, `Schedule.FoodMayLandOnSnake`).
- The snake can reverse. The input check (src/main.rs:140-148) compares
  the arrow with the stored heading, not with the last move. Two input
  frames before one tick can therefore reverse the snake. With three or
  more cells this kills it (`Schedule.TwoFramesThenTickKills`). With two
  cells, head and neck swap places (`Schedule.ShortSnakeTurnsAround`).
- The food range is lopsided. The ranges of src/main.rs:106-107 are
  half-open, so food x is in [-19, 18] and y in [-14, 13]. Food can sit
  right next to the deadly line at x = -19 or y = -14, but never on the
  live column x = 19 or the live row y = 14
  (`Food.FoodRangeIsAsymmetric`).
- Straight after eating, the new tail sits on the head's cell
  (src/main.rs:195-198). This does not kill the snake, because the death
  check runs only after the next move, and that move shifts the segment
  off the head's cell (`Snake.EatThenMove`).

## Model

`Schedule.Inv` is the invariant of live states: the body has at least one
cell, the neck is next to the head, every snake cell is strictly inside
the walls, and any food lies in the food range.


| member | source | states |
|---|---|---|
| `Grid.Opposite` | src/main.rs:140-147 | the reverse heading differs from the heading and lies on the same axis |
| `Grid.Step` | src/main.rs:158-163 | the head moves to an adjacent cell, keeps x exactly for Up/Down, and moves in the heading's sense (Up raises y, Down lowers y, Left lowers x, Right raises x) |
| `Grid.StepUndo` | src/main.rs:158-163 | a step followed by a step in the opposite heading returns to the start cell |
| `Grid.DirectionTo` | src/main.rs:158-163 | every adjacent pair of cells is one step apart in some heading |
| `Input.Only` | src/main.rs:140-146 | a key set holding exactly one arrow |
| `Input.HandleInput` | src/main.rs:137-149 | the new heading is never the reverse of the stored heading; with no arrow held it is unchanged; otherwise it is unchanged or an arrow that is held |
| `Input.FirstAccepted` | src/main.rs:140-148 | reference rule: the first heading in a given order whose arrow is held and which is not the reverse; none exactly when every held arrow is the reverse |
| `Input.HandleInputFollowsPriority` | src/main.rs:140-148 | the input rule equals the first acceptable held arrow in the order Up, Down, Left, Right, or the old heading when there is none |
| `Input.ReverseArrowIgnored` | src/main.rs:140-147 | holding only the reverse arrow leaves the heading unchanged |
| `Input.TwoInputsReverse` | src/main.rs:140-148 | from any heading, a perpendicular arrow and then the reverse arrow of a heading m in two frames leave the stored heading at the reverse of m |
| `Food.GenRange` | src/main.rs:106-107 | a random integer lies in the half-open range [lo, hi) |
| `Food.GenRangeReaches` | src/main.rs:106-107 | every integer of [lo, hi) is produced by some raw draw |
| `Food.RandomPosition` | src/main.rs:101-109 | every candidate cell lies in the food range |
| `Food.RandomPositionCovers` | src/main.rs:101-109 | every cell of the food range is the candidate of some draw |
| `Food.FoodRangeIsAsymmetric` | src/main.rs:102-107 | the food range is x in [-19, 18] and y in [-14, 13]; (19, 13) is inside the walls yet never a candidate |
| `Food.FoodInsideDeathBounds` | src/main.rs:106-107 | every candidate cell is strictly inside the death bounds |
| `Food.FirstFreeIndex` | src/main.rs:111-114 | the index of the first draw whose candidate is unoccupied: all earlier candidates are occupied, this one is not |
| `Food.FirstFree` | src/main.rs:111-114 | a placed cell is unoccupied and in the food range; nothing is placed exactly when every draw's candidate is occupied |
| `Food.SpawnFood` | src/main.rs:111-114 | the draw-then-redraw loop returns the cell of the first unoccupied draw, or nothing when the draws run out |
| `Snake.Setup` | src/main.rs:65-95 | the game starts with a two-cell chain: head at the origin heading right, neck one step behind it, no food |
| `Snake.Shift` | src/main.rs:165-172 | the shifted body has the same length; its first cell is the old head and each later cell is its predecessor's old cell |
| `Snake.Move` | src/main.rs:151-173 | the head steps along the heading; the body keeps its length, the neck takes the old head's cell and each segment its predecessor's old cell; heading and food are untouched |
| `Snake.MoveFollowsLeader` | src/main.rs:155-172 | after a move the chain is the new head followed by the old chain without its last cell |
| `Snake.IsDead` | src/main.rs:209-217 | the snake survives exactly when the head is strictly inside the box (-20, 20) × (-15, 15) and on no body cell |
| `Snake.DeadIffChainRepeatsHead` | src/main.rs:213-217 | death holds exactly when the head is outside the box or a later chain cell repeats the head |
| `Snake.Eat` | src/main.rs:182-199 | with the head on the food the food disappears and the body gains a last segment at the head's cell; otherwise nothing changes |
| `Snake.EatGrowsByOne` | src/main.rs:182-199 | eating lengthens the chain by exactly one when the head is on the food and keeps the old chain as a prefix |
| `Snake.EatThenMove` | src/main.rs:165-172 | straight after eating, the new tail is on the head; after the next move the body is the whole old chain, the new tail is on the old tail's cell, and death depends only on the moved head and the old body |
| `Snake.SnakeEntities` | src/main.rs:77-93 | the snake's entities list the chain's cells in order |
| `Snake.FoodGone` | src/main.rs:130-135 | the spawner runs only while no food exists; with no food, eating changes nothing |
| `Snake.FoodQueryCells` | src/main.rs:99 | the spawner's query selects only cells of the snake |
| `Snake.FoodQueryIsEmpty` | src/main.rs:99 | the spawner's query, which demands both the head and the body marker, matches no cell |
| `Schedule.Tick` | src/main.rs:25-28 | a tick moves first and then ends the game exactly when the moved head is outside the box or on a moved body cell |
| `Schedule.Frame` | src/main.rs:24-35 | a frame sets the heading by the input rule, grows the body by the head's cell when the head is on the food, keeps a food that is not eaten, and otherwise places food on the first draw's cell |
| `Schedule.Advance` | src/main.rs:219 | a finished game ignores every event; a live one takes a tick or a frame |
| `Schedule.TickInv` | src/main.rs:151-173 | a tick keeps the chain length, and a tick that does not end the game keeps the invariant of live states |
| `Schedule.FrameInv` | src/main.rs:175-202 | a frame keeps the invariant and lengthens the chain by exactly one when the head is on the food |
| `Schedule.Run` | src/main.rs:11-37 | over any sequence of ticks and frames, a game that ends live was live at the start: a finished game never resumes |
| `Schedule.OverIsFinal` | src/main.rs:219 | after the death check fires, no event changes the game |
| `Schedule.RunInv` | src/main.rs:23-35 | every live state reached from a state satisfying the invariant satisfies it |
| `Schedule.RunNeverShrinks` | src/main.rs:23-35 | the chain never gets shorter over any sequence of events |
| `Schedule.ReachableInv` | src/main.rs:65-95 | the start state satisfies the invariant (via `SetupInv`), every live state of every game satisfies it, and every chain has at least two cells |
| `Schedule.MoveFitsI32` | src/main.rs:48-52 | moving from a live state keeps every coordinate within 32-bit range |
| `Schedule.ReversalIntoNeck` | src/main.rs:158-172 | with three or more cells and the heading reversed against the last move, the tick puts the head on the second body segment and ends the game |
| `Schedule.TwoFramesThenTickKills` | src/main.rs:140-148 | two input frames (a perpendicular arrow, then the reverse arrow) followed by a tick end the game for any snake of three or more cells |
| `Schedule.ShortSnakeTurnsAround` | src/main.rs:140-172 | at the start, Up then Left before one tick swaps head and neck without ending the game |
| `Schedule.FoodMayLandOnSnake` | src/main.rs:99-114 | at the start, a draw naming the neck's cell places the food on the neck |
| `Schedule.ChainRejectionAvoidsSnake` | src/main.rs:111-114 | rejecting against the whole chain would keep the placed food off the snake |
| `Schedule.ScenarioFirstTick` | src/main.rs:151-173 | one tick from the start gives head (1, 0) and body [(0, 0)] |
| `Schedule.ScenarioLastInputWins` | src/main.rs:140-148 | Up then Right from heading Right leaves heading Right |
| `Schedule.ScenarioWallHit` | src/main.rs:213-219 | a head reaching x = 20 ends the game on that tick and the game stays over |
| `Schedule.ScenarioEat` | src/main.rs:182-199 | a head moving onto food at (3, 3) eats it in the next frame, grows by one, and food is placed from the first draw |

## Left out

- Window, camera, sprites and colours: engine set-up and rendering only.
- `translate_position`: a floating-point projection from cells to pixels with no effect on the simulation.
- `rand::thread_rng()`: replaced by an explicit sequence of draws, so the model never blocks.
- Food.SpawnFood: the real loop keeps drawing until a free cell appears and never gives up. When the supplied draws run out first, `Food.FirstFree` and `Food.SpawnFood` return nothing and the frame leaves the food absent, so a later frame's draws continue the search. Placement terminates only if a free cell appears among the draws.
- The fixed tick period (a float number of seconds) and wall-clock time: a tick is an abstract event, and any interleaving of ticks and frames is a sequence of events.
- The exit event: death is the terminal `Game.Over`. The real program still finishes the frame in which the exit is requested; the model stops at once.
- ECS mechanics: query iteration order, deferred commands and the panics of `single()` and `unwrap()`. The model keeps exactly one head and an explicit body order. A segment added by eating is appended at the tail.
- `handle_eat` loops over every food entity; the model holds at most one food, which is all the program ever creates.
- `handle_input` and `handle_eat` run in the same stage without an order between them. They touch disjoint data (heading versus cells and food), so the model runs input first.
- `src/constants.rs` as a file: only the derived integer grid sizes 40 and 30 are used.
