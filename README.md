# Hive move generator, modelled in Dafny

This project models the legal-move generator of a Hive board-game engine
(the Go package `hive` with its `hexgrid` helper) and proves what the moves
it lists mean.

- **Hex grid** (`hexgrid.dfy`, module `HexGrid`).
  - Cells are cube coordinates `(q, r, s)`, well formed when `q + r + s == 0`.
  - There are six unit directions, clockwise from Up. `Move` steps one cell;
    `GetAdjacent` fills a six-cell buffer whose index `d` is the step in
    direction `d`.
  - Proved: stepping keeps the coordinate sum, opposite directions cancel,
    and the six neighbours are distinct and are exactly the cells at cube
    distance one.
  - Proved: the two cells next to both `h` and its neighbour in direction
    `d` are the neighbours in the previous and next directions of the cyclic
    order. This is why the slide rule's `prev`/`next` indexing tests the two
    flanks of a slide.
- **Layered search theory** (`traversal.dfy`, module `Traversal`). This
  module is independent of the board. It defines:
  - "reachable within `k` steps" of a neighbour function, and exact
    distance;
  - what it means for a list of buckets to group cells by breadth-first
    depth (`Layered`).

  It proves that such a grouping puts exactly the cells at distance `d` in
  bucket `d`, and that an exhausted search found exactly the reachable
  cells. It also proves that, for a closed symmetric neighbour function,
  counting the found cells decides connectivity.
- **The grid's own search** (`hexgrid_search.dfy`, module `HexGridSearch`).
  This is the predicate-filtered search of `hexgrid/hexgrid.go`: one fringe
  per step, over an array of fringes. It returns exactly the cells whose
  fewest admitted steps from the start equals the requested count.
- **Board and game** (`hive.dfy`, module `Hive`):
  - pieces, and the position map held by a `Game` object;
  - its deep copy and the occupancy lookup;
  - the generic breadth-first search, bounded or unbounded, padded to the
    requested depth;
  - the one-hive check, which counts the cells found through occupied
    neighbours.
- **Move generation** (`hive_moves.dfy`, module `HiveMoves`). The methods
  carry two kinds of contract.
  - Three methods are proved equal to a specification function:
    - `AvailableAdjacentMoves` (the slide rule of the queen bee and the
      beetle, which may climb) returns `SlideMoves`;
    - `AvailableJumpMoves` (the grasshopper) returns `JumpMoves`;
    - `CollectAllowed` returns `Survivors`.

    Lemmas then characterise `SlideMoves` and `JumpMoves`, in both
    directions, by rules stated on the geometry alone (`SlideLegal`,
    `JumpLegal`). `SlideMovesDistinct` and `JumpMovesUpToDistinct` show that
    neither list repeats a cell: the six neighbours differ, and so do
    landings in different directions.
  - The other methods are specified by membership, with no repeats where
    they return a list:
    - `AvailableBFSMovesAtDepth` (the spider, at depth three): exactly the
      cells at `AtDistance` `steps` under `SlideStep`;
    - `AllAvailableBFSMoves` (the soldier ant): exactly the cells other than
      the start that `Reaches` finds under `SlideStep`;
    - `GetAvailableMoves`, which lifts the piece, checks the one-hive rule,
      dispatches on the creature and restores the board: exactly the cells
      satisfying `LegalDestination`;
    - `GetAllAvailableMoves`: its keys are the pieces satisfying `CanMove`,
      and each value satisfies `ListsDestinations` and has no repeats;
    - `GetPlacements`: exactly the cells satisfying `PlacementLegal`;
      `SingleColourCells` gives exactly the cells whose recorded colour set
      is the single given colour.

    `SlideStep` is the neighbour function built from `SlideMoves`, so the
    spider's and the ant's contracts are stated over single slides. Each
    single slide is tied to the geometric rule by `SlideMovesCharacterized`.
- **Sample games** (`hive_samples.dfy`, module `HiveSamples`). Three boards
  from the engine's tests, and the destinations the rules give the piece on
  the origin, matching what the tests expect:
  - Game 1: the queen bee may go to exactly `(1, 0, -1)` and `(0, 1, -1)`;
  - Game 4: the grasshopper may go to exactly `(0, -2, 2)`, `(0, 2, -2)` and
    `(3, 0, -3)`;
  - Game 9: the trapped spider may go nowhere.

  Through the contract of `GetAvailableMoves`, these are also the lists that
  method returns. Lemmas about one board take it as a parameter equal to the
  constant, so that the verifier does not evaluate the rule functions on the
  constant itself.
- **Grid samples** (`hexgrid_samples.dfy`, module `HexGridSamples`). The hex
  grid package's own test cases:
  - the six steps from the origin;
  - the origin's neighbour list;
  - the search around a set of blocked cells, where `SearchAroundBlocked`
    calls `BFS` for one, two and three steps and gets exactly the expected
    fringes.

**Behaviour on a board that becomes empty.** The one-hive check follows the
code, not the comment at `hive.go:58`. For an empty board, the comment says
the position counts as connected. But the search then starts from the origin,
counts that one unoccupied cell, and compares the count with zero, so the
check answers false. `Hive.Game.EnsureConnected` states this: true exactly
when the board is non-empty and one hive. `HiveMoves.LonePieceRulesAllowNothing`
shows that the difference is harmless for move generation: on an empty
remaining board, no creature's rule yields a destination anyway.

## Model

| member | source | states |
|---|---|---|
| `HexGrid.NewHex` | hexgrid.go:15-20 | a cell is built exactly when `q + r + s == 0`, and then carries those coordinates and is well formed; the refusal (the source panics) is `None` |
| `HexGrid.Move` | hexgrid/hexgrid.go:37-44 | a step keeps the coordinate sum, so a well-formed cell stays well formed, and never returns the cell itself |
| `HexGrid.MoveSteps` | hexgrid/hexgrid.go:15-44 | a step in each of the six directions changes the coordinates by that direction's unit vector, for every cell |
| `HexGrid.DirectionVectorsBalanced` | hexgrid/hexgrid.go:15-22 | every direction vector sums to zero, and the vector three places on is its negation |
| `HexGrid.MoveOppositeCancels` | hexgrid.go:23-30 | stepping in `d` and then in `(d + 3) % 6` returns to the start |
| `HexGrid.MoveInjective` | hexgrid.go:23-30 | different directions lead to different cells |
| `HexGrid.Adjacent` | hexgrid/hexgrid.go:47-53 | the neighbour list has six entries, and entry `d` is the step in direction `d` |
| `HexGrid.GetAdjacent` | hexgrid.go:56-62 | the buffer is fresh and holds the six neighbours in the clockwise order Up, UpRight, DownRight, Down, DownLeft, UpLeft |
| `HexGrid.AdjacentDistinct` | hexgrid.go:56-62 | the six neighbours are pairwise distinct and none is the cell itself |
| `HexGrid.AdjacentAreNeighbours` | hexgrid.go:22-30 | a cell is in the neighbour list exactly when it is at cube distance one |
| `HexGrid.AdjacentSymmetric` | hexgrid.go:23-30 | if b neighbours a then a neighbours b |
| `HexGrid.CommonNeighbours` | hive.go:215-228 | the cells adjacent both to h and to its neighbour in direction d are exactly its neighbours in the previous and next directions of the cyclic order |
| `HexGrid.FlankStep` | hive.go:218-228 | the destination of a slide is also one step from either flanking cell |
| `HexGrid.MoveProgresses` | hive.go:270-272 | a step in direction d raises a linear measure of the cell by two |
| `HexGrid.RayProgress` | hive.go:270-272 | walking k steps along a direction raises that measure by 2k |
| `HexGrid.RayDistinct` | hive.go:270-272 | a walk along one direction never revisits a cell: different step counts give different cells |
| `HexGrid.RayOffset` | hive.go:270-272 | the cell k steps along a direction is the start shifted by k copies of that direction's unit vector |
| `HexGrid.RaysApart` | hive.go:265-275 | walks from one cell in two different directions share no cell after the start |
| `Traversal.LayeredAppend` | hive.go:99-115 | a new bucket of distinct unvisited neighbours of the last bucket, covering all of that bucket's neighbours, extends a breadth-first grouping |
| `Traversal.LayersAreWithin` | hive.go:99-115 | buckets 0..d hold exactly the cells reachable within d steps |
| `Traversal.LayerSoundCell` | hive.go:103-113 | a cell found in buckets 0..d is reachable within d steps |
| `Traversal.LayerCompleteCell` | hive.go:103-113 | a cell reachable within d steps is found in buckets 0..d |
| `Traversal.LayerIsDistance` | hive.go:88-128 | bucket d holds exactly the cells whose fewest steps from the start is d |
| `Traversal.InLastLayer` | hive.go:107-113 | bucket d holds exactly the cells found by depth d that were not found by depth d - 1 |
| `Traversal.ExhaustedStops` | hive.go:116-119 | once a bucket is empty, one more step reaches nothing new |
| `Traversal.ExhaustedLayersAreReach` | hive.go:99-120 | a search that stopped at an empty bucket found exactly the cells reachable from the start |
| `Traversal.WithinMonotone` | hive.go:99-120 | a cell within i steps is within any j >= i steps |
| `Traversal.WithinStable` | hive.go:116-119 | if one more step adds nothing at depth k, no larger depth adds anything |
| `Traversal.WithinClosed` | hive.go:66-75 | under a neighbour function closed in a set, every reached cell is in the set or is the start |
| `Traversal.WithinTransitive` | hive.go:57-86 | paths compose, and their step counts add |
| `Traversal.ReachesTransitive` | hive.go:57-86 | reachability is transitive |
| `Traversal.WithinSymmetric` | hive.go:66-75 | under a closed symmetric neighbour function, a path can be walked backwards |
| `Traversal.TotalSizeCounts` | hive.go:79-82 | the summed sizes of the first k buckets count the distinct cells they hold |
| `Traversal.UpToSplit` | hive.go:107-113 | the cells found by depth d are those found by depth d - 1 plus, disjointly, bucket d |
| `Traversal.CountDecidesConnected` | hive.go:78-85 | for a closed symmetric neighbour function, the total bucket size equals the set's size exactly when the set is non-empty and connected |
| `Traversal.LaterLayers` | hive.go:297-299 | buckets 1 onwards hold every found cell except the start |
| `Traversal.DistinctConcat` | hive.go:297-299 | joining two repetition-free lists with no common cell gives a repetition-free list |
| `HexGridSearch.Admitted` | hexgrid/hexgrid.go:77-80 | the kept cells are exactly the listed cells the predicate admits |
| `HexGridSearch.PassableAdjacent` | hexgrid/hexgrid.go:71-80 | a search step leads exactly to the adjacent cells the predicate admits |
| `HexGridSearch.PassableStep` | hexgrid/hexgrid.go:71-80 | the search's neighbour function, applied, filters the adjacent cells by the predicate |
| `HexGridSearch.BFS` | hexgrid/hexgrid.go:57-88 | zero steps gives `[start]`; the result has no repeats and holds exactly the cells whose fewest admitted steps from the start is `steps`; for steps >= 1 every returned cell is admitted and is not the start |
| `HexGridSearch.FillFringe` | hexgrid/hexgrid.go:70-85 | the new fringe holds distinct unvisited admitted neighbours of the previous fringe; the visited set grows by exactly that fringe; every admitted neighbour of the previous fringe ends up visited |
| `HexGridSearch.GrowFringe` | hexgrid/hexgrid.go:81-83 | marking an unvisited admitted neighbour and appending it keeps the fringe repetition-free and new |
| `HexGridSearch.CoverCell` | hexgrid/hexgrid.go:72-84 | once all six neighbours of a cell are scanned, its admitted neighbours are all visited |
| `HexGridSearch.ScanStep` | hexgrid/hexgrid.go:72-84 | scanning one more neighbour keeps "every admitted scanned neighbour is visited" |
| `HexGridSearch.FringeLayered` | hexgrid/hexgrid.go:69-86 | a filled fringe extends the grouping by depth, and the visited set is all cells of the fringes so far |
| `HexGridSearch.LastFringe` | hexgrid/hexgrid.go:87 | the last fringe of a grouping by depth is the cells at that exact distance, admitted and different from the start |
| `HexGridSearch.FarCellAdmitted` | hexgrid/hexgrid.go:77-83 | a cell at distance one or more is admitted by the predicate and is not the start |
| `HexGridSearch.NotAtStart` | hexgrid/hexgrid.go:58-60 | the start, visited from the outset, is never at a positive distance |
| `HexGridSearch.FringeStep` | hexgrid/hexgrid.go:69-86 | each cell of fringe k is adjacent to a cell of fringe k - 1 |
| `HexGridSearch.DistanceUnique` | hexgrid/hexgrid.go:73-76 | a cell belongs to at most one fringe |
| `Hive.Game.Copy` | hive.go:38-48 | the copy is a new game whose position map has the same cells and the same pieces |
| `Hive.Game.CheckSpaceOccupied` | hive.go:51-54 | true exactly when a piece stands on the cell |
| `Hive.Game.EnsureConnected` | hive.go:57-86 | true exactly when the board is non-empty and every occupied cell reaches every other through occupied neighbours (an empty board gives false) |
| `Hive.OnePieceIsOneHive` | hive.go:57-86 | a board with one piece is one hive |
| `Hive.OccupiedAmong` | hive.go:69-73 | the kept cells are exactly the listed cells that hold a piece |
| `Hive.OccupiedAdjacent` | hive.go:66-75 | the connectivity step leads exactly to the occupied adjacent cells |
| `Hive.OccupiedNeighbour` | hive.go:66-75 | the connectivity neighbour function, applied, filters the adjacent cells by occupancy |
| `Hive.OccupiedNeighboursClosed` | hive.go:66-75 | the connectivity search never leaves the occupied cells, and each of its steps can be taken backwards |
| `Hive.BFS` | hive.go:88-128 | bucket 0 is `[start]`; no cell appears twice; each later bucket holds only neighbours of the previous bucket and the buckets include every neighbour found; a positive maxDepth gives exactly maxDepth + 1 buckets (padded with empty ones); maxDepth 0 stops at the first empty bucket with all earlier buckets non-empty; a negative maxDepth gives `[[start]]` |
| `Hive.ExpandLayer` | hive.go:101-115 | one depth: distinct, not yet visited neighbours of the previous bucket; the visited set grows by exactly them; every neighbour of the previous bucket ends up visited |
| `Hive.NewCellsInBound` | hive.go:103-113 | under a closed neighbour function, newly found cells stay in the bound |
| `Hive.ShrinkingRemainder` | hive.go:99-120 | each productive depth leaves fewer unvisited cells of the bound, so the unbounded search ends |
| `HiveMoves.AllowedMask` | hive.go:209-249 | the flag for direction i is set exactly when the slide in direction i passes the contact, squeeze and climbing tests |
| `HiveMoves.SurvivorsMembers` | hive.go:251-256 | the collected cells are exactly those whose flag is set |
| `HiveMoves.SlideMovesMembers` | hive.go:251-256 | a slide destination is exactly the neighbour in a direction that passes the tests |
| `HiveMoves.SurvivorsDistinct` | hive.go:251-256 | collecting the flagged cells of a list without repeats gives a list without repeats |
| `HiveMoves.SlideMovesDistinct` | hive.go:205-258 | the list of slide destinations has no repeats |
| `HiveMoves.CollectAllowed` | hive.go:251-256 | returns, in index order, exactly the cells whose flag is set |
| `HiveMoves.AvailableAdjacentMoves` | hive.go:205-258 | returns the slide destinations in direction order |
| `HiveMoves.SlideAllowedIsLegal` | hive.go:235-248 | the index-based tests agree with the geometric slide rule for that neighbour |
| `HiveMoves.SlideMovesCharacterized` | hive.go:205-258 | x is a slide destination exactly when x neighbours h, an occupied x is allowed only when climbing, and a free x has one occupied flank and one free flank |
| `HiveMoves.SlideMovesBounds` | hive.go:236-248 | slide destinations are adjacent cells; without climbing none is occupied; with climbing every occupied neighbour is one |
| `HiveMoves.AheadShrinks` | hive.go:270-272 | stepping off an occupied cell leaves fewer occupied cells ahead, so the walk ends |
| `HiveMoves.JumpLanding` | hive.go:269-272 | the walk over occupied cells ends on a free cell |
| `HiveMoves.JumpLandingIsFirstFree` | hive.go:269-272 | whatever ray cell is free after only occupied cells is the landing |
| `HiveMoves.JumpLandingOnRay` | hive.go:269-272 | the landing lies on the ray, after occupied cells only |
| `HiveMoves.JumpMovesUpTo` | hive.go:265-275 | the first k directions contribute at most k destinations |
| `HiveMoves.LandingsApart` | hive.go:265-275 | jumps over occupied neighbours in two different directions land on different cells |
| `HiveMoves.JumpMovesUpToDistinct` | hive.go:261-278 | the grasshopper's list of destinations has no repeats |
| `HiveMoves.AvailableJumpMoves` | hive.go:261-278 | returns, direction by direction, the landing beyond each occupied neighbour |
| `HiveMoves.JumpMovesUpToMembers` | hive.go:265-275 | a destination is the landing beyond the occupied neighbour in one of the first k directions |
| `HiveMoves.LandingIsJump` | hive.go:266-273 | the landing beyond an occupied neighbour is free, at least two steps away, with only occupied cells between |
| `HiveMoves.JumpIsLanding` | hive.go:266-273 | any such cell is the landing beyond the occupied neighbour in that direction |
| `HiveMoves.JumpMovesCharacterized` | hive.go:261-278 | x is a jump destination exactly when, along some direction, it is free, at least two steps away, and every cell between is occupied |
| `HiveMoves.SlideStepInVicinity` | hive.go:236-238 | a non-climbing slide ends next to some piece |
| `HiveMoves.SlideStepClosed` | hive.go:282-284 | the search through slides stays among the finitely many cells next to a piece |
| `HiveMoves.AvailableBFSMovesAtDepth` | hive.go:281-287 | returns, without repeats, exactly the cells whose fewest slides from h is `steps` (for the spider, three; empty when trapped) |
| `HiveMoves.AllAvailableBFSMoves` | hive.go:290-301 | returns, without repeats, exactly the cells other than h reachable by slides |
| `HiveMoves.NoSlideOnEmptyBoard` | hive.go:236-238 | with no piece on the board no slide is possible |
| `HiveMoves.StuckWithin` | hive.go:99-120 | a neighbour function that offers no step from the start keeps the search at its start |
| `HiveMoves.StuckOnEmptyBoard` | hive.go:281-301 | on an empty board a search through slides reaches only its start |
| `HiveMoves.LonePieceRulesAllowNothing` | hive.go:174-199 | on an empty remaining board no creature's rule yields a destination |
| `HiveMoves.RestoreRemoved` | hive.go:166-171 | putting the lifted piece back gives the original board |
| `HiveMoves.GetAvailableMoves` | hive.go:157-202 | the board is unchanged on return; x is returned exactly when the rest of the hive without the piece is one non-empty hive and the creature's rule allows x on that rest; no cell is returned twice |
| `HiveMoves.GetAllAvailableMoves` | hive.go:131-154 | the keys are exactly the player's pieces that have a move, and each value lists exactly that piece's legal destinations, each once |
| `HiveMoves.PlacementByColours` | hive.go:322-328 | a cell may take a piece of colour c exactly when it is free and the colours it touches are exactly {c} |
| `HiveMoves.TouchingAdd` | hive.go:306-319 | scanning one more piece adds its colour to the cells next to it and to no other |
| `HiveMoves.TallyStart` | hive.go:305 | the empty record is correct for no scanned pieces |
| `HiveMoves.TallyOccupied` | hive.go:309-312 | skipping an occupied neighbour keeps the record correct |
| `HiveMoves.TallyFree` | hive.go:313-318 | creating the colour set if missing, then adding the piece's colour, extends the record to that neighbour |
| `HiveMoves.TallyScanned` | hive.go:306-319 | once all six neighbours are marked, the record is correct with the piece counted as scanned |
| `HiveMoves.TallyDecides` | hive.go:322-328 | in a complete record, a cell is recorded with the single colour c exactly when placing c there is legal |
| `HiveMoves.SingleColourCells` | hive.go:322-328 | keeps, without repeats, exactly the recorded cells whose colour set is the single given colour |
| `HiveMoves.GetPlacements` | hive.go:304-330 | returns, without repeats, exactly the free cells that touch at least one piece and touch only pieces of the given colour |
| `HiveSamples.LiftPlaced` | hive.go:166-167 | lifting the piece just placed on a free cell gives back the board |
| `HiveSamples.ChainConnected` | hive.go:57-86 | cells that all lie on a walk whose consecutive cells step to each other both ways are connected |
| `HiveSamples.StepChainConnected` | hive.go:57-86 | occupied cells each one step from the last, covering the whole board, make one hive |
| `HiveSamples.Rest1Connected` | hive_test.go:37-46 | the four beetles of Game 1 form one hive |
| `HiveSamples.Game1QueenSlides` | hive_test.go:37-53 | on Game 1 without its queen, the slides from the origin are exactly `(1, 0, -1)` and `(0, 1, -1)` |
| `HiveSamples.Game1QueenMoves` | hive_test.go:302-321 | Game 1's queen bee on the origin may go exactly to the two cells the test expects |
| `HiveSamples.Game4GrasshopperJumps` | hive_test.go:133-158 | on Game 4 without its grasshopper, the jumps from the origin, and the cells the jump rule allows, are exactly `(0, -2, 2)`, `(0, 2, -2)` and `(3, 0, -3)` |
| `HiveSamples.Rest4Connected` | hive_test.go:133-148 | the eleven other pieces of Game 4 form one hive |
| `HiveSamples.Game4GrasshopperMoves` | hive_test.go:302-321 | Game 4's grasshopper on the origin may go exactly to the three cells the test expects |
| `HiveSamples.Game9SpiderStuck` | hive_test.go:286-298 | on Game 9 without its spider, no slide leaves the origin: five neighbours are occupied and the sixth is squeezed |
| `HiveSamples.Game9SpiderTrapped` | hive_test.go:302-321 | Game 9's spider has no legal destination, as the test expects |
| `HexGridSamples.MovesFromOrigin` | hexgrid/hexgrid_test.go:21-41 | each direction's step from the origin lands on the cell the test expects |
| `HexGridSamples.AdjacentOfOrigin` | hexgrid/hexgrid_test.go:43-59 | the origin's neighbour list holds exactly the six cells the test lists |
| `HexGridSamples.AdmissionNearOrigin` | hexgrid/hexgrid_test.go:62-81 | the test's predicate, which admits every cell not in the blocked set, admits or refuses each cell the first three steps look at |
| `HexGridSamples.WithinOne` | hexgrid/hexgrid_test.go:61-89 | the cells within one admitted step of the origin are the origin and the four expected cells |
| `HexGridSamples.WithinTwo` | hexgrid/hexgrid_test.go:61-92 | the cells within two admitted steps add exactly the three cells the second case expects |
| `HexGridSamples.WithinThree` | hexgrid/hexgrid_test.go:61-95 | the cells within three admitted steps add exactly the five cells the third case expects |
| `HexGridSamples.FirstFringe` | hexgrid/hexgrid_test.go:87-89 | the cells at exact distance one are the four cells the test expects |
| `HexGridSamples.SecondFringe` | hexgrid/hexgrid_test.go:90-92 | the cells at exact distance two are the three cells the test expects |
| `HexGridSamples.ThirdFringe` | hexgrid/hexgrid_test.go:93-95 | the cells at exact distance three are the five cells the test expects |
| `HexGridSamples.SearchAroundBlocked` | hexgrid/hexgrid_test.go:61-105 | searching from the origin for one, two and three steps returns, without repeats, exactly the three fringes the test expects |

## Left out

- Concurrency in `GetAllAvailableMoves` (hive.go:131-154) is not modelled: there are no goroutines, mutex or wait group. The pieces are visited one after another, in an arbitrary order. Each piece is still searched on its own copy of the game.
- Precondition failures are modelled as preconditions:
  - `log.Fatalf` for a missing piece (hive.go:160) is `requires h in g.positions`.
  - The unknown-creature `panic` (hive.go:197) cannot arise: `Creature` has exactly five constructors, so the match is exhaustive.
  - An index outside 0..5 in `Move` cannot arise, because `Direction` is a subset type.
  - A negative step count, which the source turns into an index panic (hive.go:286, hexgrid/hexgrid.go:63-64), is a precondition.
- `NewHex` returns `None` instead of panicking (hexgrid.go:17).
- Go map iteration order is not modelled. The order of `Copy`, the start cell of the one-hive check, `GetAllAvailableMoves` and `GetPlacements` is chosen arbitrarily (`:|`). The contracts state membership and the absence of repeats, not the order of cells within a result or a bucket.
- `Hive.BFS`: the source's unused `g` parameter (hive.go:90) is dropped. With `maxDepth == 0` the model takes a ghost set and requires that the neighbour function never leaves it (`ClosedIn`). This set only serves the termination proof. The source terminates whenever finitely many cells are reachable, and `ClosedIn` asks for closure from every cell, not only the reachable ones, so this requirement is stronger than termination needs. Both callers meet it: `Game.EnsureConnected` passes the occupied cells, and `AllAvailableBFSMoves` passes the cells next to a piece.
- The neighbour closures (hive.go:66-75, 282-284, 291-293) are modelled as Dafny function values over the board. The method `AvailableAdjacentMoves` is proved equal to the function the slide closure stands for.
- Two initialisation loops become array initialisers:
  - the loop setting every `allowed` flag to true (hive.go:209-212);
  - the loop setting the higher fringes to empty slices (hexgrid/hexgrid.go:63-67).
- The loop that collects the allowed neighbours (hive.go:251-256) is the method `CollectAllowed`, called at the end of `AvailableAdjacentMoves`. The loop that scores the flags stays in place.
- `HexGridSearch.FillFringe` gathers the cells appended to `fringes[step]` (hexgrid/hexgrid.go:83), and the search then stores them in that slot. Because the slot starts empty, the stored fringe is the same.
- One `Hex` type and one `MaxDirections` stand for both copies of the grid code. `hive.go:265` uses `hexgrid.MaxDirections`. The identifier `MaxDirections` exists only in the top-level `hexgrid.go`, which belongs to package `hive`. Package `hexgrid` calls the same constant `Max`, and it has no `New` constructor, although the tests call `hexgrid.New` (hive_test.go:19).
- Coordinates and counts are unbounded integers. The source's platform-sized `int` (32 or 64 bits) cannot overflow for boards of any playable size.
- Colours form a two-valued datatype. The source's `MaxPlayers` sentinel is not a colour.
- Beetle stacking is not modelled. The board holds one piece per cell, and moves are computed but never applied, as in the source.
- The test helpers `hexSlicesAreEqual`, `hexDictsAreEqual` and `hexSliceIsEqual` are not modelled. Their comparison up to order and repeats is what the membership contracts state.
- Of the sample boards in hive_test.go, only Games 1, 4 and 9 are stated as lemmas, for the piece on the origin. The others would need longer concrete proofs of the spider's and the ant's searches.
- The spider rule is the source's rule: cells whose fewest slides is exactly three (hive.go:281-287). It is not the board game's "three distinct steps without backtracking".
