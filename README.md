# raycast: the integer core in Dafny

This project models, in Dafny, the integer and discrete logic of the
`raycast` terminal ray-caster. It covers:

- **The maze generator** (`src/maze-gen/maze-gen.c`).
  - The maze is a grid of cells stored row-major. Each cell holds a visited flag and a four-bit wall mask, with TOP = 0, RIGHT = 1, BOTTOM = 2, LEFT = 3.
  - Adding and removing walls is kept symmetric across the shared edge.
  - Neighbours are listed in the order LEFT, TOP, RIGHT, BOTTOM.
  - `maze_generate` is an iterative depth-first backtracker over an explicit position stack. At the end it opens an entrance and an exit.
- **The two fixed-point libraries**: 16.16 and 32.32, signed and unsigned (`src/fixed/fixed.c`), and the 32.32 library over one raw 64-bit value (`src/fixed-point/fixed-point.c`).
  - They cover add, subtract, the round-half-up multiply and the 16.16 divide.
  - The 32.32 multiply is the split-limb version.
  - Every C integer width, wrap-around and conversion is written out explicitly.
- **The map and the ray traversal** (`src/raycast-engine/raycast-engine.c`).
  - The map is a row-major grid of materials with get, set, fill and a bounds test.
  - From `re_raycast` the model takes the quadrant setup, and the classification of each grid-line crossing: out of bounds, a wall hit on the near or far side, or a pass that steps the checked line.
  - It also keeps the loop that stops at the first crossing that decides the ray.
- **The terminal character buffer and the pixel buffer** built on it (`src/simptg/stg-buffer.c`, `src/simptg/stg-pixel-buffer.c`).
  - Cells are read and written in place, and the fills are nested loops.
  - A pixel is a pair of horizontally adjacent character cells.
  - Colour codes map to ANSI SGR offsets.

Files and modules:

| file | module | what it holds |
|---|---|---|
| `int_ops.dfy` | `IntOps` | C integer containers, truncating division, round-half-up quotients, congruence lemmas |
| `row_major.dfy` | `RowMajor` | the `row * width + col` index shared by every grid |
| `maze_grid.dfy` | `MazeGrid` | cell values, neighbours, edges, and the backtracker's invariant with its proof steps (on sequences) |
| `maze_gen.dfy` | `MazeGen` | class `Maze` over an `array` of cells: the state-changing operations and `Generate` |
| `fixed.dfy` | `Fixed` | `fixed.c` |
| `fixed_point.dfy` | `FixedPoint` | `fixed-point.c` |
| `raycast_engine.dfy` | `RaycastEngine` | class `REMap`, the quadrant setup, crossing classification, the traversal |
| `stg_buffer.dfy` | `StgBuffer` | class `SCGBuffer` and the ANSI mappings |
| `stg_pixel_buffer.dfy` | `StgPixelBuffer` | the pixel-buffer operations over an `SCGBuffer` |

Modelling choices:

- **rand()**: `maze_generate` draws `rand() % n`. In the model, `Generate` takes `rand: nat -> nat`, the sequence of values the C library's generator returns, and `Backtrack` reduces the k-th draw modulo the number of unvisited neighbours. Every property of `Generate` holds for every such sequence.
- **Ghost results**: `Generate` also returns the set of internal edges it carved. This is a ghost result, used to state what the finished maze is.
- **Traversal inputs**: in `re_raycast` the quadrant comes from the angle, and the cell index of each crossing is `(int32_t)` of a floating-point intercept. In the model, both are inputs:
  - a `Quadrant` in 1..4;
  - a sequence of `Probe`s. Each probe is a horizontal-line crossing at column `cx` or a vertical-line crossing at row `cy`, listed in the order the floating-point comparisons would visit them.
- **The 32.32 value of `fixed-point.c`**: `fixed-point.h:6-14` declares `struct FixedPoint64` and `struct UFixedPoint64` with an `integer` and a `fraction` field, while every function of `fixed-point.c` reads and writes a single raw field `.as_int` / `.as_uint`. The model follows the `.c` file: a value is one raw 64-bit integer, its integer half is the shift by 32 and its fraction half the mask with `UINT32_MAX`. Reading the header's two fields as the raw value `integer * 2^32 + fraction` (`FromParts`, `UFromParts`) is the model's own choice.
- **Flattened loop**: the C code runs a horizontal inner loop and a vertical inner loop inside an outer loop. All three stop once anything is found, so the model treats the visits as one loop over the probes that stops at the first deciding crossing.

## Model

| member | source | states |
|---|---|---|
| MazeGrid.CellAddWall | src/maze-gen/maze-gen.c:147-150 | the wall's bit is set, every other wall bit and the visited flag are unchanged |
| MazeGrid.ClearCellWall | src/maze-gen/maze-gen.c:152-155 | the wall's bit is clear, every other wall bit and the visited flag are unchanged |
| MazeGrid.CellHasWall | src/maze-gen/maze-gen.c:142-145 | a wall is present exactly when bit `wall` of the four-bit mask, shifted down to bit 0, is 1 |
| MazeGrid.WallsDetermineMask | src/maze-gen/maze-gen.c:135-138 | the four wall bits determine the mask; `~0` in the four-bit field is 15, with all four walls present |
| MazeGrid.NeighborPosition | src/maze-gen/maze-gen.c:157-161 | the neighbour across a wall is exactly one step away, in the direction of that wall (col + 1 iff RIGHT, col - 1 iff LEFT, row + 1 iff BOTTOM, row - 1 iff TOP) |
| MazeGrid.NeighborOfNeighbor | src/maze-gen/maze-gen.c:104-109 | crossing a wall and then its opposite `(w + 2) % 4` leads back to the starting cell |
| MazeGrid.EdgeAtShared | src/maze-gen/maze-gen.c:113-125 | a wall and its opposite on the neighbour lie on the same grid edge, and no other wall does |
| MazeGrid.WallRemovedStateChanges | src/maze-gen/maze-gen.c:113-125 | removing a wall clears it on the cell, clears the opposite wall on the in-bounds neighbour, and leaves every other cell and every other bit unchanged |
| MazeGrid.InBoundsNeighborsListed | src/maze-gen/maze-gen.c:163-184 | the positions appended for `col > 0`, `row > 0`, `col < width - 1`, `row < height - 1` are exactly the in-bounds neighbours, in the order LEFT, TOP, RIGHT, BOTTOM |
| MazeGrid.NeighborListUnique | src/maze-gen/maze-gen.c:163-202 | a neighbour list (all neighbours, or only the unvisited ones) has at most 4 entries and is unique |
| MazeGrid.InitialState | src/maze-gen/maze-gen.c:43-49 | after the middle cell is pushed and marked visited, the loop invariant holds: stack and visited bound, one carved edge per visited cell beyond the first, walls matching the carved edges |
| MazeGrid.PushStep | src/maze-gen/maze-gen.c:58-66 | a push removes exactly the wall between the top cell and a newly visited neighbour; it keeps the invariant, the unvisited count falls by one, and one edge is carved |
| MazeGrid.PopStep | src/maze-gen/maze-gen.c:67-69 | popping a cell with no unvisited neighbours keeps the invariant |
| MazeGrid.FrontierExists | src/maze-gen/maze-gen.c:51-70 | if one cell is visited and another is not, some visited cell has an unvisited neighbour |
| MazeGrid.PushConnected | src/maze-gen/maze-gen.c:58-66 | after a push every visited cell can still be reached from the middle cell through carved edges: the old cells by their old walks, the new cell through the top cell and the newly carved edge |
| MazeGrid.PushReach | src/maze-gen/maze-gen.c:58-66 | a push of the k-th unvisited neighbour keeps every visited cell reachable from the middle cell |
| MazeGrid.ConnectedSymmetric | src/maze-gen/maze-gen.c:113-125 | carved edges join cells both ways, so a walk from a to b reversed is a walk from b to a |
| MazeGrid.ConnectedTransitive | src/maze-gen/maze-gen.c:113-125 | a walk from a to b followed by a walk from b to c is a walk from a to c |
| MazeGrid.AnyTwoConnected | src/maze-gen/maze-gen.c:41-70 | when every cell is reachable from the middle cell, any two cells of the grid are joined by a walk through carved edges |
| MazeGrid.AllVisited | src/maze-gen/maze-gen.c:51-70 | once the stack is empty, every cell is visited, every cell is reachable from the middle cell, and exactly width * height - 1 internal edges are carved |
| MazeGrid.DoorsComplete | src/maze-gen/maze-gen.c:72-73 | opening the entrance (LEFT of (0, 0)) and the exit (RIGHT of (w - 1, h - 1)) removes those two border walls only and keeps every cell visited |
| MazeGen.Maze.constructor | src/maze-gen/maze-gen.c:23-34 | the maze has the given dimensions and width * height cells, each unvisited with all four walls |
| MazeGen.Maze.InitAsWritten | src/maze-gen/maze-gen.c:132-140 | maze_init as written: only the first `(width * height) mod 2^32` cells become pristine, and the rest keep their old contents |
| MazeGen.InitBoundWraps | src/maze-gen/maze-gen.c:134 | for a 65536 x 65536 maze the uint32 loop bound is 0 |
| MazeGen.Maze.IsPositionInBounds | src/maze-gen/maze-gen.c:127-130 | true exactly for `0 <= col < width` and `0 <= row < height`, and then the row-major index addresses one of the width * height cells |
| MazeGen.Maze.IsCellVisited | src/maze-gen/maze-gen.c:78-87 | reads the visited flag of the cell at row-major index `row * width + col` |
| MazeGen.Maze.HasWall | src/maze-gen/maze-gen.c:94-97 | reads the wall bit of the cell at (col, row) |
| MazeGen.Maze.SetCellVisited | src/maze-gen/maze-gen.c:89-92 | the visited flag of one cell is set to the given value, and nothing else changes |
| MazeGen.Maze.AddWall | src/maze-gen/maze-gen.c:99-111 | sets the wall on the cell, and sets the opposite wall on the neighbour only if the neighbour is within bounds; nothing else changes |
| MazeGen.Maze.RemoveWall | src/maze-gen/maze-gen.c:113-125 | the same with clearing; the new cell array is the one WallRemovedStateChanges describes |
| MazeGen.Maze.GetCellNeighborPositions | src/maze-gen/maze-gen.c:163-184 | the result is the neighbour list of (col, row): the in-bounds neighbours, each with its shared wall, in the order LEFT, TOP, RIGHT, BOTTOM |
| MazeGen.Maze.GetCellUnvisitedNeighborPositions | src/maze-gen/maze-gen.c:186-202 | the result is the neighbour list with the visited cells dropped and the order kept |
| MazeGen.Maze.PushCentre | src/maze-gen/maze-gen.c:43-49 | the stack has room for width * height positions and holds only the middle cell, which is visited; the loop invariant holds |
| MazeGen.Maze.Backtrack | src/maze-gen/maze-gen.c:51-70 | one loop iteration keeps the invariant and the stack within its bound; either the unvisited count drops, or it stays and the stack shrinks (the loop terminates) |
| MazeGen.Maze.Push | src/maze-gen/maze-gen.c:58-66 | the push branch of an iteration: the stack stays within its width * height slots, grows by one, the loop invariant and reachability from the middle cell are kept, and the unvisited count falls by exactly one |
| MazeGen.Maze.Advance | src/maze-gen/maze-gen.c:58-66 | removes the shared wall, pushes the neighbour and marks it visited |
| MazeGen.Maze.Generate | src/maze-gen/maze-gen.c:41-76 | for every sequence of random draws: the loop terminates; every cell ends visited; exactly width * height - 1 internal edges are carved, each between two cells of the grid; any two cells are joined by a walk through carved edges, so the carved edges form a spanning tree of the grid; the walls standing are exactly the uncarved internal walls plus the border; the entrance (LEFT of (0, 0)) and the exit (RIGHT of (w - 1, h - 1)) are open |
| MazeGen.Maze.OpenEntranceAndExit | src/maze-gen/maze-gen.c:72-73 | the completed maze gains its entrance and exit and stays complete |
| Fixed.Fixed32Add | src/fixed/fixed.c:31-34 | the raw sum modulo 2^32 |
| Fixed.Fixed32Subtract | src/fixed/fixed.c:36-39 | the raw difference modulo 2^32 |
| Fixed.Fixed32AddSubtract | src/fixed/fixed.c:31-39 | add then subtract of the same value returns the operand, and subtract then add does too, overflow included |
| Fixed.Fixed32Multiply | src/fixed/fixed.c:41-48 | `(a * b + 2^15) >> 16` in int64, converted to int32; what it computes, the product rounded half up, is stated by Fixed32MultiplyRounds |
| Fixed.Fixed32MultiplyRounds | src/fixed/fixed.c:41-48 | the multiply is `a * b / 2^16` rounded half up, modulo 2^32 |
| Fixed.Fixed32MultiplyOne | src/fixed/fixed.c:41-48 | multiplying by raw 65536 (1.0) on either side returns the operand |
| Fixed.Fixed32Divide | src/fixed/fixed.c:50-58 | `((a << 17) / b + 1) >> 1` in int64 with C's truncating division, converted to int32; its rounding is stated by Fixed32DivideRounds and Fixed32DivideNegativeQuotient |
| Fixed.Fixed32DivideRounds | src/fixed/fixed.c:50-58 | for a non-negative quotient the divide is `a * 2^16 / b` rounded half up, modulo 2^32 |
| Fixed.Fixed32DivideOne | src/fixed/fixed.c:50-58 | dividing by 1.0 returns the dividend |
| Fixed.Fixed32DivideNegativeQuotient | src/fixed/fixed.c:52-55 | `-3 * 2^-16 / 4.0` gives 0, though the nearest value, half up, is `-1 * 2^-16` |
| Fixed.Fixed32DivideRounded | src/fixed/fixed.c:50-58 | the corrected divide (floor in place of truncation) rounds half up for every sign |
| Fixed.UFixed32Add | src/fixed/fixed.c:60-63 | the raw sum modulo 2^32 |
| Fixed.UFixed32Subtract | src/fixed/fixed.c:65-68 | the raw difference modulo 2^32 |
| Fixed.UFixed32AddSubtract | src/fixed/fixed.c:60-68 | add and subtract of the same value are inverses |
| Fixed.UFixed32Multiply | src/fixed/fixed.c:70-77 | the same in uint64 and uint32; its rounding is stated by UFixed32MultiplyRounds |
| Fixed.UFixed32MultiplyRounds | src/fixed/fixed.c:70-77 | the multiply is `a * b / 2^16` rounded half up, modulo 2^32 |
| Fixed.UFixed32MultiplyOne | src/fixed/fixed.c:70-77 | multiplying by 1.0 on either side returns the operand |
| Fixed.UFixed32Divide | src/fixed/fixed.c:79-88 | the unsigned divide in uint64, converted to uint32; its rounding is stated by UFixed32DivideRounds |
| Fixed.UFixed32DivideRounds | src/fixed/fixed.c:79-88 | the divide is `a * 2^16 / b` rounded half up, modulo 2^32 |
| Fixed.UFixed32DivideOne | src/fixed/fixed.c:79-88 | dividing by 1.0 returns the dividend |
| Fixed.Fixed64Add | src/fixed/fixed.c:112-115 | the raw sum modulo 2^64 |
| Fixed.Fixed64Subtract | src/fixed/fixed.c:117-120 | the raw difference modulo 2^64 |
| Fixed.Fixed64AddSubtract | src/fixed/fixed.c:112-120 | add and subtract of the same value are inverses |
| Fixed.Fixed64Split | src/fixed/fixed.c:124-127 | the arithmetic shift and the mask give halves in [-2^31, 2^31) and [0, 2^32) that recombine to the raw value |
| Fixed.Fixed64Multiply | src/fixed/fixed.c:122-140 | the split-limb multiply, every int64 operation wrapping; its rounding is stated by Fixed64MultiplyRounds, its overflow by Fixed64MultiplyFractionOverflow |
| Fixed.Fixed64MultiplyRounds | src/fixed/fixed.c:122-140 | when `a_frac * b_frac + 2^31 < 2^63`, the split-limb multiply is `a * b / 2^32` rounded half up, modulo 2^64 |
| Fixed.Fixed64MultiplyFractionOverflow | src/fixed/fixed.c:131-132 | (1 - 2^-32) squared gives raw -2, not the rounded value 0xFFFFFFFE |
| Fixed.Fixed64MultiplyCorrected | src/fixed/fixed.c:122-140 | the corrected multiply rounds half up for every pair of operands |
| Fixed.Fixed64MultiplyOne | src/fixed/fixed.c:122-140 | multiplying by raw 2^32 (1.0) on either side returns the operand |
| Fixed.UFixed64Add | src/fixed/fixed.c:150-153 | the raw sum modulo 2^64 |
| Fixed.UFixed64Subtract | src/fixed/fixed.c:155-158 | the raw difference modulo 2^64 |
| Fixed.UFixed64AddSubtract | src/fixed/fixed.c:150-158 | add and subtract of the same value are inverses |
| Fixed.UFixed64Multiply | src/fixed/fixed.c:160-178 | the split-limb multiply in uint64; its rounding is stated by UFixed64MultiplyRounds |
| Fixed.UFixed64MultiplyRounds | src/fixed/fixed.c:160-178 | for all operands, the multiply is `a * b / 2^32` rounded half up, modulo 2^64 |
| Fixed.UFixed64MultiplyOne | src/fixed/fixed.c:160-178 | multiplying by 1.0 on either side returns the operand |
| FixedPoint.FromParts | src/fixed-point/fixed-point.c:41-44 | the value built from a signed 32-bit integer half and an unsigned 32-bit fraction half gives back exactly those halves through the shift by 32 and the mask with UINT32_MAX |
| FixedPoint.UFromParts | src/fixed-point/fixed-point.c:76-79 | the same for the unsigned type |
| FixedPoint.SplitRecombine | src/fixed-point/fixed-point.c:41-44 | splitting into halves and recombining are inverse operations, in both directions |
| FixedPoint.USplitRecombine | src/fixed-point/fixed-point.c:76-79 | the same for the unsigned type |
| FixedPoint.FixedPoint64Add | src/fixed-point/fixed-point.c:29-32 | the raw sum modulo 2^64 |
| FixedPoint.FixedPoint64Subtract | src/fixed-point/fixed-point.c:34-37 | the raw difference modulo 2^64 |
| FixedPoint.FixedPoint64AddSubtract | src/fixed-point/fixed-point.c:29-37 | add and subtract of the same value are inverses |
| FixedPoint.FixedPoint64Multiply | src/fixed-point/fixed-point.c:39-57 | the split-limb multiply of `fixed-point.c`, transcribed on its own, every int64 operation wrapping; FixedPoint64MultiplyAgrees and FixedPoint64MultiplyRounds state what it computes |
| FixedPoint.FixedPoint64MultiplyAgrees | src/fixed-point/fixed-point.c:39-57 | this separate transcription gives bit for bit the result of fixed64_multiply (src/fixed/fixed.c:122-140) on equal raw inputs |
| FixedPoint.FixedPoint64MultiplyRounds | src/fixed-point/fixed-point.c:39-57 | when `a_fraction * b_fraction + 2^31 < 2^63`, the multiply is `a * b / 2^32` rounded half up, modulo 2^64 |
| FixedPoint.FixedPoint64MultiplyFractionOverflow | src/fixed-point/fixed-point.c:48-49 | (1 - 2^-32) squared gives raw -2, not the rounded product |
| FixedPoint.FixedPoint64MultiplyCorrected | src/fixed-point/fixed-point.c:39-57 | the corrected multiply rounds half up for every pair of operands |
| FixedPoint.FixedPoint64MultiplyOne | src/fixed-point/fixed-point.c:39-57 | multiplying by 1.0 on either side returns the operand |
| FixedPoint.UFixedPoint64Add | src/fixed-point/fixed-point.c:64-67 | the raw sum modulo 2^64 |
| FixedPoint.UFixedPoint64Subtract | src/fixed-point/fixed-point.c:69-72 | the raw difference modulo 2^64 |
| FixedPoint.UFixedPoint64AddSubtract | src/fixed-point/fixed-point.c:64-72 | add and subtract of the same value are inverses |
| FixedPoint.UFixedPoint64Multiply | src/fixed-point/fixed-point.c:74-92 | the unsigned split-limb multiply, transcribed on its own in uint64; UFixedPoint64MultiplyAgrees and UFixedPoint64MultiplyRounds state what it computes |
| FixedPoint.UFixedPoint64MultiplyAgrees | src/fixed-point/fixed-point.c:74-92 | this separate transcription gives bit for bit the result of ufixed64_multiply (src/fixed/fixed.c:160-178) |
| FixedPoint.UFixedPoint64MultiplyRounds | src/fixed-point/fixed-point.c:74-92 | for all operands, `a * b / 2^32` rounded half up, modulo 2^64 |
| FixedPoint.UFixedPoint64MultiplyOne | src/fixed-point/fixed-point.c:74-92 | multiplying by 1.0 on either side returns the operand |
| RaycastEngine.REMap.constructor | src/raycast-engine/raycast-engine.c:21-30 | the map has the given dimensions and width * height cells (the area in 64 bits) |
| RaycastEngine.REMap.CoordsInBounds | src/raycast-engine/raycast-engine.c:204-207 | true exactly for positions inside the map, whose row-major index then lies within the area |
| RaycastEngine.REMap.GetMaterial | src/raycast-engine/raycast-engine.c:37-40 | the material of the cell at the uint32 index; for an in-bounds position of a map whose area fits in 32 bits, the cell at row-major index `y * width + x` |
| RaycastEngine.REMap.CellIndex | src/raycast-engine/raycast-engine.c:37-45 | the uint32 index `y * width + x` addresses a cell for every in-bounds position (`0 <= x < width`, `0 <= y < height`); it is the row-major index when the area fits in 32 bits |
| RaycastEngine.REMap.SetMaterial | src/raycast-engine/raycast-engine.c:37-45 | exactly the cell at the computed index changes; reading back gives the material; no other in-bounds position changes (area within 2^32) |
| RaycastEngine.REMap.IndicesDiffer | src/raycast-engine/raycast-engine.c:39-44 | distinct in-bounds positions have distinct cells when the area fits in 32 bits |
| RaycastEngine.CellIndexCollision | src/raycast-engine/raycast-engine.c:39-44 | with width 2^32 - 1 and height 2, cells (1, 1) and (0, 0) share an index |
| RaycastEngine.REMap.CellIndexWide | src/raycast-engine/raycast-engine.c:23 | the index `y * width + x` computed in 64 bits, like the area: for every position within bounds it is the row-major index and lies below the area, with no bound on the area |
| RaycastEngine.REMap.WideIndicesDiffer | src/raycast-engine/raycast-engine.c:21-45 | with the 64-bit index, distinct in-bounds positions have distinct cells for every map size |
| RaycastEngine.CellIndexCollisionAvoided | src/raycast-engine/raycast-engine.c:23 | with width 2^32 - 1 and height 2, the 64-bit index of (1, 1) is 2^32 and that of (0, 0) is 0 |
| RaycastEngine.REMap.Fill | src/raycast-engine/raycast-engine.c:47-53 | every one of the width * height cells, and every in-bounds position, holds the material |
| RaycastEngine.QuadrantSetup | src/raycast-engine/raycast-engine.c:74-98 | the x tile step is -1 iff quadrant 2 or 3 and the y step is -1 iff quadrant 3 or 4 (otherwise 1); check_x is origin_x_whole + 1 (int32), dropping back to origin_x_whole in quadrants 2 and 3; likewise check_y in quadrants 3 and 4 |
| RaycastEngine.StepBack | src/raycast-engine/raycast-engine.c:74-96 | adding 1 then -1 in int32 returns to the origin, overflow included |
| RaycastEngine.HorizontalCrossing | src/raycast-engine/raycast-engine.c:111-146 | out of bounds iff (cx, check_y) or (cx, check_y - 1) is outside the map; a hit is a non-transparent material, that of (cx, check_y) first, else that of (cx, check_y - 1); a pass iff both cells are in bounds and transparent |
| RaycastEngine.VerticalCrossing | src/raycast-engine/raycast-engine.c:151-186 | the same for (check_x, cy) and (check_x - 1, cy) |
| RaycastEngine.Raycast | src/raycast-engine/raycast-engine.c:100-188 | the loop's results (collided material, which wall was found, out of bounds) are those of the traversal `Trace` from the quadrant's start state |
| RaycastEngine.VisitOutcome | src/raycast-engine/raycast-engine.c:109-187 | one crossing never finds both kinds of wall; out of bounds sets the out-of-bounds material; a hit is a non-transparent material of some in-bounds cell |
| RaycastEngine.TraceOutcome | src/raycast-engine/raycast-engine.c:107-188 | the traversal never finds both a horizontal and a vertical wall; out of bounds comes only with a find, and then with the out-of-bounds material; when nothing is found the collided material is still the out-of-bounds material set at line 107; otherwise it is a non-transparent material of some in-bounds cell |
| RaycastEngine.HorizontalPasses | src/raycast-engine/raycast-engine.c:143-146 | while the ray passes horizontal crossings, each pass moves check_y on by one tile step and changes nothing else |
| RaycastEngine.LineAfterWraps | src/raycast-engine/raycast-engine.c:144 | after k passes, check_y is `check_y + k * tile_step_y` reduced to int32 |
| RaycastEngine.VerticalPasses | src/raycast-engine/raycast-engine.c:183-186 | while the ray passes vertical crossings, each pass moves check_x by one tile step and changes nothing else; after k passes check_x is `check_x + k * tile_step_x` in int32 (LineAfterWraps) |
| StgBuffer.SCGBuffer.constructor | src/simptg/stg-buffer.c:17-26 | records width and height and holds width * height cells |
| StgBuffer.SCGBuffer.SetCh | src/simptg/stg-buffer.c:33-41 | only the character of the cell at `row * width + col` changes; GetCh reads it back; the cell's colours are unchanged |
| StgBuffer.SCGBuffer.GetCh | src/simptg/stg-buffer.c:38-41 | the character of the cell at `row * width + col`; constrained by SetCh (reads back the written character), SetFgColor and SetBgColor (leave it unchanged) and FillCh (every cell reads the fill character) |
| StgBuffer.SCGBuffer.SetFgColor | src/simptg/stg-buffer.c:43-51 | only the foreground colour of that cell changes; GetFgColor reads it back; the character and background are unchanged |
| StgBuffer.SCGBuffer.GetFgColor | src/simptg/stg-buffer.c:48-51 | the foreground colour of the cell at `row * width + col`; SetFgColor reads back through it, SetCh and SetBgColor leave it unchanged |
| StgBuffer.SCGBuffer.SetBgColor | src/simptg/stg-buffer.c:53-61 | only the background colour of that cell changes; GetBgColor reads it back; the character and foreground are unchanged |
| StgBuffer.SCGBuffer.GetBgColor | src/simptg/stg-buffer.c:58-61 | the background colour of the cell at `row * width + col`; SetBgColor reads back through it, SetCh and SetFgColor leave it unchanged |
| StgBuffer.SetThenGet | src/simptg/stg-buffer.c:33-61 | after one cell of the grid is written, that position reads the new cell and every other in-bounds position its old one |
| StgBuffer.SCGBuffer.FillCh | src/simptg/stg-buffer.c:63-72 | every cell's character becomes ch, and the colours are unchanged |
| StgBuffer.SCGBuffer.FillFgColor | src/simptg/stg-buffer.c:74-83 | every cell's foreground colour is set, and the other fields are unchanged |
| StgBuffer.SCGBuffer.FillBgColor | src/simptg/stg-buffer.c:85-94 | every cell's background colour is set, and the other fields are unchanged |
| StgBuffer.AnsiFg | src/simptg/stg-buffer.c:137-140 | the code plus 39, modulo 2^16 |
| StgBuffer.AnsiBg | src/simptg/stg-buffer.c:142-145 | the code plus 49, modulo 2^16 |
| StgBuffer.AnsiOffsets | src/simptg/stg-buffer.c:137-145 | without wrap-around, the foreground code minus 39 is the colour code, and the background code is the foreground code plus 10 |
| StgPixelBuffer.RightColumn | src/simptg/stg-pixel-buffer.c:19-20 | a pixel's right cell is the column after its left cell (`col * 2 + 1` vs `col * 2` in uint16) |
| StgPixelBuffer.LeftColumn | src/simptg/stg-pixel-buffer.c:19 | the uint16 `col * 2`: always even; `2 * col` when col < 2^15, and `2 * (col - 2^15)` otherwise |
| StgPixelBuffer.Create | src/simptg/stg-pixel-buffer.c:3-10 | a character buffer `width * 2` (uint16) wide and `height` high, every character a space |
| StgPixelBuffer.SetPixel | src/simptg/stg-pixel-buffer.c:17-26 | the background colours of cells (2 col, row) and (2 col + 1, row) change, and nothing else does; stg_pixel_buffer_get then returns the colour |
| StgPixelBuffer.GetPixel | src/simptg/stg-pixel-buffer.c:23-26 | the background colour of the pixel's left cell (column `col * 2` in uint16); SetPixel's ensures reads the set colour back through it |
| StgPixelBuffer.Fill | src/simptg/stg-pixel-buffer.c:28-31 | every cell's background becomes the colour, and the other fields are unchanged |
| StgPixelBuffer.GetWidth | src/simptg/stg-pixel-buffer.c:48-51 | half the character width rounded down: `2 * w <= width <= 2 * w + 1` |
| StgPixelBuffer.GetHeightAsWritten | src/simptg/stg-pixel-buffer.c:53-56 | as written, half the character height rounded down: `2 * h <= height <= 2 * h + 1` |
| StgPixelBuffer.DimensionsRoundTrip | src/simptg/stg-pixel-buffer.c:48-56 | the width given to Create comes back from get_width (modulo 2^15), and the corrected GetHeight returns the height given |
| StgPixelBuffer.HeightHalved | src/simptg/stg-pixel-buffer.c:53-56 | as written, get_height returns half the height given to Create (a 4 x 10 buffer reports 5) |

## Left out

- Floating point:
  - intercepts;
  - `tan` steps;
  - the threshold comparisons;
  - `distance_of_points` and the `cos` fisheye scale (raycast-engine.c:71-77, 190-191, 209 onward);
  - `reduce_angle`;
  - the angle-to-quadrant test (raycast-engine.c:67-69).

  The quadrant and each crossing's cell index are inputs.
- Raycast: the order of horizontal and vertical crossings is an input sequence. The model does not capture that the C loop may never end if the intercept comparisons stop admitting crossings. The model's traversal always ends, because the probe sequence is finite.
- Raycast: `found_coords` and `texture_unit_phase` are floating-point bookkeeping and are not modelled.
- Other floating-point code:
  - the `*_to_double`/`*_from_double` conversions;
  - `fixed64_divide`/`ufixed64_divide`, which go through doubles.
- The fixed-point-64 divide is declared in the header but commented out in `fixed-point.c`, so the model has none.
- All of `src/raycast.c`: main loop, input thread, terminal control, option parsing.
- Terminal output and shell calls:
  - `stg_buffer_print` and `stg_print_cell`;
  - `make_space`/`remove_space`;
  - `stg_input_adjust`/`restore`;
  - their pixel-buffer wrappers.
- Allocation and freeing (`ALLOC_FLEX_STRUCT`, `ALLOC_ARR`, `free`) are modelled by Dafny arrays sized at construction. Storage the source leaves uninitialised is whatever Dafny's default is.
- `rand()` is the parameter `rand` of `Generate`. The generator itself is not modelled.
- `enum SCGColorCode` is declared in simptg.h, which is not part of this model, so a colour code is any `int`.
- One material per cell: the map has one material per cell, as `raycast-engine.c` and its header use it. The four-material cells used by `src/raycast.c` are not modelled.
- RaycastEngine.REMap.SetMaterial: "no other position changes" is proved only when width * height <= 2^32. Beyond that the uint32 index wraps and two positions can share a cell (CellIndexCollision). The corrected 64-bit index (CellIndexWide, WideIndicesDiffer) is stated and proved on its own; GetMaterial and SetMaterial keep the uint32 index as written.
- StgBuffer.SCGBuffer.constructor: requires `w * h < 2^31`, because stg_buffer_create computes the product in `int`. A larger product overflows, which is undefined behaviour.
- MazeGen.Maze.Generate: that the carved edges contain no cycle, so that exactly one simple path joins two cells, is not proved as such. The model proves that the w * h cells are connected by exactly w * h - 1 carved edges, and a connected graph with one edge fewer than vertices is a tree; that graph fact itself is not proved here.
- MazeGen.Maze.Generate: requires width and height of at least 1. With an empty grid the source writes `position_stack[0]` into a zero-length allocation.
- Maze cell access: the source does no bounds check, so `IsCellVisited`, `HasWall` and the wall and visited setters require an in-bounds position. The same goes for `GetMaterial` (an index inside the cell array) and the character-buffer accessors (`Addressable`).

## Findings

| source | as written | input that shows it | evidently intended | confidence | as-written member | corrected member |
|---|---|---|---|---|---|---|
| src/fixed/fixed.c:131-132 | the fraction product `a_frac * b_frac + 2^31` is held in `int64_t`, so it overflows when `a_frac * b_frac + 2^31 >= 2^63` | `fixed64_multiply` of raw 0xFFFFFFFF by itself gives raw -2 | `a * b / 2^32` rounded half up (raw 0xFFFFFFFE) | not executed | Fixed.Fixed64MultiplyFractionOverflow | Fixed.Fixed64MultiplyCorrected |
| src/fixed-point/fixed-point.c:48-49 | the same overflow in `fixed_point64_multiply` | raw 0xFFFFFFFF squared gives raw -2 | `a * b / 2^32` rounded half up | not executed | FixedPoint.FixedPoint64MultiplyFractionOverflow | FixedPoint.FixedPoint64MultiplyCorrected |
| src/fixed/fixed.c:52-55 | truncating division before the `+1 >> 1` rounding step, so negative quotients are not rounded to nearest | raw -3 divided by raw 0x40000 (4.0) gives 0, where the nearest value is raw -1 | the quotient rounded half up for every sign | not executed | Fixed.Fixed32DivideNegativeQuotient | Fixed.Fixed32DivideRounded |
| src/maze-gen/maze-gen.c:134 | maze_init's loop bound `width * height` is computed in `uint32_t`, while maze_create allocates `(uint64_t) width * height` cells | a 65536 x 65536 maze: the bound is 0 and no cell is initialised | every one of the width * height cells initialised | not executed | MazeGen.InitBoundWraps | MazeGen.Maze.constructor |
| src/simptg/stg-pixel-buffer.c:53-56 | get_height halves the character height, though create does not double it | a pixel buffer created 4 x 10 reports height 5 | the height given to create | not executed | StgPixelBuffer.HeightHalved | StgPixelBuffer.DimensionsRoundTrip |
| src/raycast-engine/raycast-engine.c:37-45 | re_map_get_material and re_map_set_material (lines 39 and 44) compute the index `y * width + x` in `uint32_t`, while re_map_create allocates a `uint64_t` area (line 23), so for areas above 2^32 the index wraps | a 4294967295 x 2 map: cell (1, 1) has index 2^32, which wraps to 0, the index of cell (0, 0) | the index computed in 64 bits, like the area, so distinct cells never share storage | not executed | RaycastEngine.CellIndexCollision | RaycastEngine.REMap.WideIndicesDiffer |
