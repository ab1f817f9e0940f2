# Marching squares, modelled in Dafny

The program is a small real-time marching-squares demo. Its scene is a
101 x 101 grid of square cells, each 2 units wide. The cells' top-left
corners run from -100 to 100 in each axis, so the grid covers
[-100, 102] x [-102, 100]. Circular "balls" move around the scene and bounce
off its walls.

Each tick of the driver does three things:

1. It moves every ball and sets a new heading for any ball that has left
   the scene and whose flag is clear.
2. It finds the cell that contains each ball's centre. It then tests the
   four corners of every cell near that cell against the ball. A cell with
   a corner inside the ball is activated: it takes the ball's colour, ORs
   a marching-squares state into its own, and joins a queue.
3. Drawing drains the queue. Each queued cell is rendered with the
   lookup-table entry at its state's ordinal minus one, then reset to EMPTY.

The model keeps the program's own structure:

- One `class` per object whose fields change in place: `MarchingSquare`,
  `Ball`, and `Scene`, which holds the program's globals (`grid`,
  `activeSquares`, `balls`, `nullSqr`, `centerSquare`).
- A `datatype` for each value: vectors, `SceneBounds`, `Direction` and the
  lookup-table triangles.
- A `method` with loop invariants for each loop of the source.
- A `function` for each pure computation.

Every method is proved against specification functions, and lemmas prove
what those functions promise.

Modules, in dependency order:

| module | contents |
|---|---|
| `Vectors` | vec3 and vec4, and the operators `+`, `-`, `*` and `cross` |
| `Config` | the constants DIMENSION and SQUARE_WIDTH |
| `States` | the `MarchingSquareState` ordinals, activateSquare's switch, the OR merge, and `squareStateLookup` |
| `Squares` | the `MarchingSquare` class |
| `Bounds` | `SceneBounds`, with `outOfBounds` and `getWallNormal` |
| `Balls` | `Ball::contains`, `directionsLookup`, `generateDirection`, the `Ball` class, and the per-tick motion |
| `Grid` | the layout `populateGrid` builds, `findSquare`'s guess and window, and which cells `resolveSquareStates` activates |
| `Engine` | the `Scene` class and the source's free functions: `populateGrid` (in the constructor), `findSquare`, `resolveSquareStates`, `activateSquare`, the two loops of `driver`, and `draw`'s queue drain |

On every path the program runs, coordinates are integers: DIMENSION is 100,
SQUARE_WIDTH is 2, radii are whole numbers, speed is 2 and headings are unit
steps. So `Vec3` is over `int`. Colours are never computed on and are
`real`. The lookup table's coordinates are stored in tenths: 0.1 becomes 1
and 1.0 becomes 10.

Masks and state ordinals are `bv4`. The source ORs enum ordinals together,
and every value involved lies in 0..15.

## Model

| member | source | states |
|---|---|---|
| Vectors.Half | marchingSquares.cpp:1157-1159 | `operator/` by 2 on a vector with even components is exact: twice each result component is the input component |
| Vectors.SubUndoesAdd | marchingSquares.cpp:1165-1171 | `-` undoes `+` for either summand, `+` commutes, and `u - v` is `u + v * -1` |
| Vectors.Sub | marchingSquares.cpp:1169-1171 | `u - v` is the zero vector if and only if u equals v |
| Vectors.Scale | marchingSquares.cpp:1161-1163 | scaling by 1 is the identity; scaling by 0, or scaling the zero vector, gives the zero vector |
| Vectors.Cross | marchingSquares.cpp:1153-1155 | the cross product of a vector with itself, or with the zero vector, is the zero vector |
| Vectors.ScaleDistributes | marchingSquares.cpp:1161-1167 | `*` by a scalar distributes over `+` |
| Vectors.CrossPerpendicular | marchingSquares.cpp:1153-1155 | `cross(u, v)` is perpendicular to both u and v, and `cross(v, u)` is its negation |
| States.StateForMask | marchingSquares.cpp:789-842 | activateSquare's switch: a mask m in 1..15 selects ordinal m-1; any other value selects FILLED (14) |
| States.MaskStateAgrees | marchingSquares.cpp:789-842 | the four-bit form of the switch that the resolver uses agrees with the switch on every mask |
| States.Merge | marchingSquares.cpp:1058-1061 | bit k of the merged state is set if and only if bit k is set in the current or the incoming state |
| States.MergeIsJoin | marchingSquares.cpp:1058-1061 | activate's OR keeps every bit of both states, and it is the least state that does |
| States.EmptyAbsorbs | marchingSquares.cpp:97 | EMPTY is ordinal 15, so OR-ing any state into EMPTY leaves it EMPTY |
| States.SquareStateLookup | marchingSquares.cpp:211-426 | each of the 15 entries has between 1 and 6 triangles |
| States.LookupInCell | marchingSquares.cpp:211-426 | every vertex of each of the 15 patterns lies in the cell-local square [-1, 1] x [-1, 1] on the plane z = -1 |
| States.LookupInCellLow | marchingSquares.cpp:211-295 | the same for the first eight patterns |
| States.LookupInCellHigh | marchingSquares.cpp:296-426 | the same for the last seven patterns |
| States.LookupTriangles | marchingSquares.cpp:211-426 | table entry m-1, the entry at the ordinal activateSquare stores for mask m, has 1 triangle for one corner, 3 for two adjacent corners, 4 for a diagonal pair, 5 for three corners and 6 for four |
| States.LookupCorners | marchingSquares.cpp:211-426 | table entry m-1 touches corner k of the cell if and only if bit k of m is set |
| States.LookupCornersLow | marchingSquares.cpp:211-290 | the same for masks 1 to 7 |
| States.LookupCornersHigh | marchingSquares.cpp:291-426 | the same for masks 8 to 15 |
| States.DrawnPatternLagsMask | marchingSquares.cpp:595 | draw indexes the table at the stored ordinal minus one, so a cell activated with mask m >= 2 is drawn with entry m-2, whose corners are the bits of m-1 and not of m |
| Squares.MarchingSquare.constructor | marchingSquares.cpp:1028-1046 | p1, p2 and p3 are one width below, below-right and right of p0; the centre is the midpoint of p0 and p2 at z = -1; row, column, colour and state are as given |
| Squares.MarchingSquare.Contains | marchingSquares.cpp:1048-1056 | a point is inside if and only if it lies in the closed square, with every edge and corner included |
| Squares.MarchingSquare.Activate | marchingSquares.cpp:1058-1061 | the colour is overwritten, and the new state is the old state OR the given one |
| Squares.MarchingSquare.EmptyState | marchingSquares.cpp:1063-1065 | the state becomes EMPTY, and the colour is unchanged |
| Squares.ContainsCornersAndCentre | marchingSquares.cpp:1028-1056 | a cell contains its four corners and its centre, and a point on the edge it shares with its right neighbour is in both cells |
| Bounds.SceneBounds.OutOfBounds | marchingSquares.cpp:1114-1123 | a ball is in bounds if and only if its bounding square lies within the walls, touching included, because all four comparisons are strict |
| Bounds.SceneBounds.WallNormal | marchingSquares.cpp:1125-1139 | the normal returned is a unit vector along x or y |
| Bounds.SceneBounds.FirstViolated | marchingSquares.cpp:1125-1139 | the wall it picks is violated, and no earlier wall in the order maxX, minX, maxY, minY is |
| Bounds.WallNormalIsFirstViolated | marchingSquares.cpp:1125-1139 | getWallNormal returns the inward normal of the first violated wall |
| Bounds.WallNormalOfFirstViolated | marchingSquares.cpp:1114-1139 | conversely, if wall w is violated and no earlier wall is, the ball is out of bounds and the normal is w's |
| Bounds.OutOfBoundsIffViolates | marchingSquares.cpp:1114-1123 | outOfBounds holds if and only if some wall is violated |
| Balls.Contains | marchingSquares.cpp:939-955 | for a non-negative radius, both branches of Ball::contains agree with the strict disc test dx² + dy² < r² |
| Balls.SquareBelow | marchingSquares.cpp:947-951 | the on-axis branch's test \|d\| < r is the same as d² < r² |
| Balls.ContainsCentre | marchingSquares.cpp:939-955 | a ball contains its own centre if and only if its radius is positive |
| Balls.DirectionsLookup | marchingSquares.cpp:428-437 | every entry is a unit heading in the plane: x and y in -1..1, not both 0, z = 0 |
| Balls.GenerateDirection | marchingSquares.cpp:844-879 | draw k in 1..8 gives the direction with ordinal k-1; any other draw keeps the initial NW |
| Balls.DirectionsAreTheHeadings | marchingSquares.cpp:428-437 | directionsLookup lists each of the eight unit headings exactly once, and every direction is reached by some draw |
| Balls.Nudge | marchingSquares.cpp:961-990 | draws 1, 2 and 3 give a step of +1, 0 and -1 along the axis on which the normal is 0 |
| Balls.BounceHeadsInward | marchingSquares.cpp:961-994 | a bounce off wall w gives a heading that steps away from w, with at most one step along it |
| Balls.Ball.constructor | marchingSquares.cpp:930-937 | every field is as given, and the flag starts clear |
| Balls.Ball.Move | marchingSquares.cpp:957-959 | the position advances by the heading times the speed |
| Balls.Ball.Bounce | marchingSquares.cpp:961-994 | the heading becomes the normal plus the nudge that the draw selects |
| Balls.Ball.SetOutOfBounds | marchingSquares.cpp:1012-1014 | the flag is set |
| Balls.Ball.ClearOutOfBounds | marchingSquares.cpp:1016-1018 | the flag is cleared |
| Balls.Settle | marchingSquares.cpp:552-559 | the bounds check keeps the position; it sets the flag if and only if the flag was clear and the ball is out of bounds; without a bounce the heading is kept |
| Balls.Tick | marchingSquares.cpp:548-560 | a tick moves the ball by its heading times its speed, and bounces only if the flag was clear |
| Balls.TickBouncesOnce | marchingSquares.cpp:548-560 | after a tick, the ball has moved one step; the flag is set if and only if it was clear and the moved ball is out of bounds; the heading is kept unless a bounce happened, and after a bounce it leads away from the first violated wall |
| Balls.NoBounceTwiceInARow | marchingSquares.cpp:552-559 | the tick after a bounce neither bounces nor turns |
| Balls.BounceCountBound | marchingSquares.cpp:548-560 | over n ticks a ball bounces at most ceil(n/2) times, or floor(n/2) times if its flag starts set |
| Balls.RunKeepsHeading | marchingSquares.cpp:548-560 | a ball that starts with a unit heading keeps one on every tick |
| Balls.LingeringBallBouncesAgain | marchingSquares.cpp:556-558 | the flag is cleared without a bounds check, so a ball still out of bounds two ticks after a bounce bounces again |
| Grid.PopulateGrid | marchingSquares.cpp:881-891 | the grid has 101 rows of 101 cells; cell (r, c) has p0 = (2c-100, 100-2r, -1), stored row r+1 and stored column c; every cell is blue and EMPTY, and each is a new object |
| Grid.ContainsAtIndex | marchingSquares.cpp:1048-1056 | the cell at index (i, j) contains a point if and only if the point lies in the closed square that the layout puts at (i, j) |
| Grid.TruncDiv2 | marchingSquares.cpp:735 | C's division by 2 truncates toward zero: 2q <= n <= 2q+1 for n >= 0, and 2q-1 <= n <= 2q for n < 0 |
| Grid.ApproxRow | marchingSquares.cpp:735 | for a point at or below the top edge, the guessed row is non-negative and its cells span the point's y |
| Grid.ApproxCol | marchingSquares.cpp:735 | for a point at or right of the left edge, the guessed column is non-negative and its cells span the point's x |
| Grid.LocateCovers | marchingSquares.cpp:735-741 | for -98 <= x <= 101 and -101 <= y <= 98, the guessed cell exists, is probed and contains the point |
| Grid.CornerMask | marchingSquares.cpp:762-778 | bit k of the mask is set if and only if the ball contains corner k (bit 0 for p0, bit 1 for p1, bit 2 for p2, bit 3 for p3) |
| Grid.MaskOfCell | marchingSquares.cpp:1028-1036 | a cell laid out at (i, j) has the corner mask of the layout's square at (i, j) |
| Grid.OtherCellsElsewhere | marchingSquares.cpp:881-891 | in a populated grid, no other cell records the stored row and column of the cell at (i, j) |
| Grid.Hits | marchingSquares.cpp:756-787 | every index resolveSquareStates activates passes the guard 0 < i, j < 101 |
| Grid.VisitCount | marchingSquares.cpp:761-783 | one inner-loop iteration activates its own index, and only when the index passes the guard and its mask is not zero |
| Grid.RowHitsExactly | marchingSquares.cpp:759-785 | a scan of one row activates each in-window, in-range, touched index exactly once and no other index |
| Grid.WindowHitsExactly | marchingSquares.cpp:758-786 | the same for a scan of rows lo..hi-1 |
| Grid.HitsExactly | marchingSquares.cpp:756-787 | one call activates index (a, b) once if (a, b) is within 2r of the cell's stored row and column, passes the guard and has a corner inside the ball; otherwise it activates (a, b) not at all |
| Grid.RowHitsInRange | marchingSquares.cpp:761 | every index a row scan activates passes the guard |
| Grid.WindowHitsInRange | marchingSquares.cpp:761 | every index a window scan activates passes the guard |
| Grid.CellsAtAppend | marchingSquares.cpp:781-782 | the cells at a concatenation of index sequences are the concatenation of the cells |
| Grid.RowCells | marchingSquares.cpp:760-785 | a row scan over columns lo..hi-1 queues at most hi-lo cells |
| Grid.WindowCells | marchingSquares.cpp:758-786 | a window scan queues at most one cell per index of the window |
| Grid.RowCellsAreHits | marchingSquares.cpp:760-785 | the cells a row scan queues are exactly the grid cells at the indices it activates, in order |
| Grid.WindowCellsAreHits | marchingSquares.cpp:758-786 | the same for a window scan |
| Grid.WindowCellsInGrid | marchingSquares.cpp:781-782 | every cell a window scan queues is a cell of the grid |
| Grid.ScanRowLocates | marchingSquares.cpp:740-751 | a row of the search keeps the carried result or returns a probed cell of the row that contains pos; it returns nothing exactly when nothing was carried and no probed column of the row contains pos |
| Grid.ScanRowsLocates | marchingSquares.cpp:739-752 | the same for the rows of the search, taken in order |
| Grid.FoundIndex | marchingSquares.cpp:731-754 | the index the search returns: a found index is probed and its cell contains pos; nothing is found exactly when no probed cell contains pos |
| Grid.LastFound | marchingSquares.cpp:562-568 | what the second loop leaves in `centerSquare`, given the searches' results in order: a last find is one of those results |
| Grid.LastFoundIsLast | marchingSquares.cpp:562-568 | the last find is none if and only if every search found nothing; otherwise it is the result of a search after which every search found nothing |
| Grid.SearchesStep | marchingSquares.cpp:564-567 | one more search replaces the last find if it finds a cell and keeps it otherwise |
| Grid.CellsAtHas | marchingSquares.cpp:781-782 | the grid cell at (a, b) is among the cells at a run of indices if and only if (a, b) is one of the indices |
| Grid.WindowCellIffHit | marchingSquares.cpp:758-786 | a window scan queues the grid cell at (a, b) if and only if it activates index (a, b) |
| Grid.TouchedByIsTouches | marchingSquares.cpp:563-569 | the indices a ball's iteration of the second loop recolours are exactly those it touches: its search finds a cell, and the scan of the window around it activates the index |
| Grid.PassOfAgrees | marchingSquares.cpp:563-569 | a ball's pass (what its iteration queues and recolours) recolours index (a, b) if and only if the iteration touches it, and queues the grid cell there under the same condition |
| Grid.PassOfWindow | marchingSquares.cpp:563-569 | a ball whose search finds nothing queues and recolours nothing; otherwise its pass queues the window's touched cells in row-major order and recolours exactly the indices the window scan activates |
| Grid.PassQueuedInGrid | marchingSquares.cpp:781-782 | every cell a pass queues is a grid cell |
| Grid.QueuedInGrid | marchingSquares.cpp:562-571 | when every pass queues only grid cells, so do the first n passes together |
| Grid.QueuedByOne | marchingSquares.cpp:562-571 | the first n passes queue a cell if and only if one of them does |
| Grid.ColourAfterIsLastTouch | marchingSquares.cpp:562-571 | after the first n passes an index keeps its colour when no pass recolours it, and otherwise has the colour of a pass that recolours it and after which none does |
| Grid.PassesQueueTouched | marchingSquares.cpp:562-571 | the balls' passes queue the grid cell at (a, b) if and only if one ball's iteration touches (a, b) |
| Grid.PassesColourLastTouch | marchingSquares.cpp:562-571 | after the balls' passes, an index no ball touches keeps its colour; otherwise it has the colour of a ball that touches it and after which no ball does |
| Engine.Scene.constructor | marchingSquares.cpp:443-450 | the globals once main has run populateGrid: a populated grid of new cells, every cell blue and EMPTY, an empty queue, the given balls, the program's scene bounds, a null cell at row and column -1, and no centre cell |
| Engine.Scene.FindSquare | marchingSquares.cpp:731-754 | the result is the cell at the index FoundIndex gives, or the null cell when it gives none; sound: a non-null result is a grid cell in the probed window around the guess that contains pos; complete: the result is the null cell if and only if no probed index contains pos |
| Engine.Scene.SearchRow | marchingSquares.cpp:739-751 | one row of the search: the carried result is kept or replaced by a grid cell, and the result's index is the one ScanRow gives |
| Engine.Scene.ActivateSquare | marchingSquares.cpp:789-842 | the cell takes the ball's colour, ORs in the switch's state for the mask, and is appended to the queue exactly once |
| Engine.Scene.CornerState | marchingSquares.cpp:762-778 | the mask built from the four corner tests equals the corner mask of the cell's index |
| Engine.Scene.ResolveCell | marchingSquares.cpp:761-784 | one guarded iteration: the cell is activated with its mask if and only if the mask is not zero; the queue grows by that cell or by nothing; every other cell is unchanged |
| Engine.Scene.ResolveRow | marchingSquares.cpp:760-785 | the inner loop: the row's touched cells are queued left to right, and exactly they are recoloured and merged |
| Engine.Scene.ResolveSquareStates | marchingSquares.cpp:756-787 | the touched cells of the window are queued once each in row-major order; each takes the ball's colour and ORs in its mask's state; no other cell changes |
| Engine.Scene.Draw | marchingSquares.cpp:589-651 | the drain empties the queue and renders one entry per queued cell, in FIFO order, with the cell's corner, its colour and the lookup index state-1; a cell queued again renders FILLED, since its first pop emptied it; every queued cell ends EMPTY with its colour unchanged |
| Engine.Scene.CheckBounds | marchingSquares.cpp:552-559 | for a clear flag and an out-of-bounds ball, the flag is set and the ball bounces off the wall normal; a set flag is cleared with no bounds check |
| Engine.Scene.UpdateBall | marchingSquares.cpp:549-559 | one ball's iteration of the first loop is one tick |
| Engine.Scene.MoveBalls | marchingSquares.cpp:548-560 | the first loop gives each ball exactly one tick with its own draw |
| Engine.Scene.ResolveBall | marchingSquares.cpp:563-570 | with no containing cell, the centre cell and the queue are unchanged; otherwise that cell becomes the centre cell and its window's touched cells are queued in row-major order; the cell is the one at the index FoundIndex gives; the touched cells take the ball's colour and every other cell keeps its own; EMPTY cells stay EMPTY |
| Engine.Scene.ResolveBallAt | marchingSquares.cpp:564-569 | one iteration of the second loop does what ball j's pass says: the pass's cells are appended to the queue, the cells at its recoloured indices take ball j's colour and every other cell keeps its own; the centre cell becomes the cell at ball j's found index, or stays as it was when the search finds none; every cell stays EMPTY and every queued cell is a grid cell |
| Engine.Scene.AdvanceCentre | marchingSquares.cpp:562-571 | the loop invariant's centre step: a centre cell that is the last find of the first j searches (or the starting cell, when none found one) is the last find of the first j + 1 after the iteration; the queue and colours change as ResolveBallAt states |
| Engine.Scene.ResolveStep | marchingSquares.cpp:562-571 | the loop invariant's queue and colour step: a queue holding the cells of the first j passes then holds those of the first j + 1, and every cell's colour is the one the first j + 1 passes leave on its starting colour |
| Engine.Scene.ResolveEach | marchingSquares.cpp:562-571 | the second loop, seen through the balls' positions and passes: the queue gains the cells of each pass, ball by ball; every cell ends with the colour the passes leave on its starting colour; the centre cell ends as the last find |
| Engine.Scene.CentreStep | marchingSquares.cpp:566-567 | a search that finds nothing keeps the centre cell; one that finds a cell makes it the centre, whatever was found before |
| Engine.Scene.CentreContainsSomeBall | marchingSquares.cpp:562-571 | a centre cell that is the last find of the balls' searches is a grid cell containing some ball's centre, unless no search found one |
| Engine.Scene.CentreContainsSomePosition | marchingSquares.cpp:562-571 | the same for any run of positions: the last find's cell contains one of them |
| Engine.Scene.ResolveBalls | marchingSquares.cpp:562-571 | the second loop keeps every cell EMPTY and every queued cell in the grid; the queue gains the cells of each ball's pass, ball by ball; every cell ends with the colour of the last ball whose pass recolours it, or keeps its colour when none does; the centre cell ends as the grid cell at the index of the last ball whose search finds one, and unchanged when no search finds one; hence it is unchanged or a grid cell containing some ball's centre |
| Engine.Scene.DrainQueue | marchingSquares.cpp:572-651 | the driver's draw call from a scene whose cells are all EMPTY: the queue ends empty; entry k is rendered from the k-th queued cell, with its corner, its colour and pattern index 14 (FILLED); every cell is still EMPTY and keeps its colour; no ball moves |
| Engine.Scene.MoveAndResolve | marchingSquares.cpp:546-571 | the driver's two loops: every ball ticks once with its own draw; then the queue gains the cells of each moved ball's pass, every cell takes the colour of the last moved ball whose pass recolours it or keeps its own, and the centre cell ends as the cell of the last find over the moved positions, or unchanged; every cell stays EMPTY |
| Engine.Scene.Driver | marchingSquares.cpp:546-574 | every ball ticks once; the queue ends empty; one entry is rendered for each cell the initial queue and the moved balls' passes queue, in that order, with the cell's corner, its final colour and pattern index 14 (FILLED); every cell ends with the colour of the last moved ball whose pass recolours it, or keeps its own; every cell is EMPTY before and after; the centre cell ends as the grid cell at the index of the last ball whose search (over the moved positions) finds one, and unchanged when none does |

## Left out

- OpenGL and GLUT are left out: `main`'s window setup, `initOpenGL`,
  `resetProjection`, `resizeViewport`, `keyboardHandler`, the camera, the
  GL calls in `draw`, the ball outlines and the display toggles. They are
  presentation and foreign library calls. `draw` is modelled as its queue
  drain. It returns what it would render for each cell: the translation
  `p0`, the colour, and the lookup index.
- `rand`, `srand` and `time` are not modelled: every random draw is a
  parameter, with the range that `rand() % n + 1` gives.
  - `Ball::bounce` takes a component draw in 1..3.
  - `generateDirection` takes a direction draw.
  - `Driver` takes one bounce draw per ball.
- `generateShapes` is not modelled: it is random initialisation only.
  `Scene`'s constructor takes the balls as a parameter.
- `magnitude`, `normalize`, and `operator/` by a general scalar need
  floating-point square roots and division. They are not modelled. The only
  division used, the cell centre's `/ 2`, is `Vectors.Half`.
- `GLfloat` rounding is not modelled. Integer arithmetic is exact on the
  values the program uses.
- Balls.Contains: assumes a whole-number radius, as all of the program's
  ball radii are.
- The `std::vector::at` range checks, and the exceptions they would throw,
  are preconditions in the model:
  - `Approximable` is on `findSquare`'s guess.
  - `Draw` requires that no queued cell is TOP_LEFT, whose lookup index
    would be -1.
- `Ball::bounce` leaves the nudge unset for a normal with both x and y
  non-zero. `getWallNormal` leaves the normal unset for a ball in bounds.
  The driver never makes either call. `Balls.Ball.Bounce`,
  `Balls.Nudge` and `Bounds.SceneBounds.WallNormal` therefore require an
  axis normal or an out-of-bounds ball.
- `populateGrid` appends to the global grid. The model runs it once, in
  `Scene`'s constructor, as main does, and the grid is then a `const`
  field. Cells keep their identity, and their colour and state stay
  mutable.
- The source's `findSquare` returns `&nullSqr` or a pointer into the grid.
  The model returns the `MarchingSquare` reference itself.
- `Engine.Scene.ResolveCell`, `Engine.Scene.ResolveRow`,
  `Engine.Scene.SearchRow`, `Engine.Scene.CornerState`,
  `Engine.Scene.CheckBounds`, `Engine.Scene.UpdateBall`,
  `Engine.Scene.MoveBalls`, `Engine.Scene.ResolveBall`,
  `Engine.Scene.ResolveBallAt`, `Engine.Scene.AdvanceCentre`,
  `Engine.Scene.ResolveStep`, `Engine.Scene.ResolveEach` and
  `Engine.Scene.ResolveBalls` are loop bodies and loops of the source,
  made into methods of their own. Their code is the code of those loops.
  `Engine.Scene.MoveAndResolve` (the two loops) and
  `Engine.Scene.DrainQueue` (the `draw` call) split `driver`'s body in two
  in the same way.
- `Engine.Scene.ResolveSquareStates`, `Engine.Scene.ResolveRow` and
  `Engine.Scene.ResolveCell` take a ghost argument, `masks`. It names the
  corner mask of each index, and it is tied to the ball's geometry by
  `MasksOf`. The methods compute the masks themselves, from the cell's
  corners, as the source does.
- A ball's pass (`Grid.Pass`) is what its iteration of the second loop
  does: the cells it queues, in order, the indices it recolours, and the
  colour it gives them. `Grid.Queued` and `Grid.ColourAfter` fold the
  passes of the balls in order. `Engine.Scene.ResolveStep`,
  `Engine.Scene.AdvanceCentre` and `Engine.Scene.ResolveEach` take the
  balls' positions, their passes and the starting colours as ghost
  arguments, and `ResolveBalls` passes them in.
- `Grid.AppendAssociates` is a proof helper with no counterpart in the
  source. `Vectors.Add` has no contract of its own;
  `Vectors.SubUndoesAdd` states its properties.
- The behaviour described in prose differs from the code in places. The
  model follows the code:
  - A cell's stored row is its index plus one. `populateGrid` reads
    `grid.size()` after pushing the row.
  - `findSquare`'s ±4 window is therefore centred one row below the guessed
    cell.
  - `resolveSquareStates`'s ±2r window is centred on the epicenter's stored
    row in the same way, so it too sits one row below the cell
    (`WindowLo(epicenter.row, …)` in `Engine.Scene.ResolveBall`).
  - Row 0 and column 0 fail the guard `> 0`, so they are never probed or
    activated.
  - The `break` leaves only the inner loop. A cell found in an earlier row
    can be replaced by the first probed cell of a later row that also
    contains the point.
  - `activateSquare` queues the cell on every call, so a cell touched by k
    balls is queued k times.
  - Cells start EMPTY (15), and OR-ing into 15 leaves 15. Every activated
    cell is therefore drawn with pattern 14, FILLED, whatever its corners.
  - `activateSquare` already stores ordinal m-1 for mask m, and `draw`
    subtracts one more before it indexes the table. A cell in state s would
    be drawn with entry s-1: mask m would get the pattern of mask m-1, and
    mask 1 (TOP_LEFT, ordinal 0) would index -1. Only the EMPTY absorption
    above keeps this from showing (`States.DrawnPatternLagsMask`).
  - The flag is cleared on the tick after a bounce without a bounds check.
    A ball still outside two ticks after a bounce bounces again
    (`Balls.LingeringBallBouncesAgain`).
  - `findSquare`'s guess uses C's `(int)` cast and `/`, which truncate toward
    zero rather than flooring (`Grid.TruncDiv2`).
- The class comment on `MarchingSquare` labels the corners p0 bottom-left,
  p1 bottom-right, p2 top-right and p3 top-left. The constructor builds p0
  top-left, p1 bottom-left, p2 bottom-right and p3 top-right. The model
  follows the constructor.
