# Circles swap: a Dafny model

The sketch draws a `cols` x `cols` board of circles, one circle per cell.
Every `duration` frames, at the first frame of a period, it does three things:

1. It resets every circle onto the cell it glided to.
2. It clears the assignment grid `_assigned_position` and lets `_make_pairs`
   write one rotation into it. A rotation is four corners of a random
   square, each mapped to the next corner.
3. It scans the grid, x outer and y inner. For every entry, the circle
   starting on that cell is paired with the circle starting on the entry.

On every frame the circles then `move`: each glides from its start cell
towards its partner's cell by the eased fraction of the period, and
remembers its last 30 positions as a trail.

The model has six modules.

- `Grid` (`grid.dfy`): board cells, `xy_from_index`, the cells `setup` lays
  out, and `find_neighbours`.
- `Randomness` (`randomness.dfy`): `random_int` in its three call forms,
  `random_from_array`, and `shuffle_array`. `shuffle_array` is an in-place
  Fisher-Yates shuffle over an `array`. Every `Math.random()` call becomes a
  real draw in [0, 1) that the caller supplies.
- `Pairing` (`pairing.dfy`): `_make_pairs` as a function of the grid (a
  map from cells to cells) and of its draws. Its outcome is `Done` or
  `Thrown`. A `TypeError` is an access (the anchor read or a write) through
  a column that is off the board. Lemmas cover three things:
  - what the function writes;
  - what it leaves alone;
  - the cycle it closes.
- `Easing` (`easing.dfy`): `easeInOut` and the frame fraction `percent`
  of `draw`.
- `Circles` (`circles.js`'s `Circle`, in `circles.dfy`): the pure state
  transitions `Initial`, `Moved`, `PairedWith` and `Reset`. The class
  `Circle` updates its fields in place, and each of its methods is proved
  equal to one of those transitions.
- `Animation` (`sketch.dfy`): the `Sketch` class. It holds the circles, the
  in-place `array2` grid, and the methods for `setup`, `_make_pairs`, the
  boundary reset, the grid scan and the move loop. Next to them are the
  pure frame function `DrawFrame` and the lemmas about it. The main result
  is that a frame keeps the sketch valid: start cells and end cells each
  stay a bijection onto the board.

Where the code and its stated intent differ, the model follows the code:

- `random_from_array` never picks the last element of an array of two or
  more.
- When `_make_pairs` picks direction 2 or 3 from an anchor on an axis,
  `random_int(1, 0)` makes the side 0. The side is 1 only for the draw 0.
  - A side of 0 maps the anchor to itself.
  - A side of 1 leaves an entry that points off the board (direction 2) or
    writes through column -1 (direction 3).

  Either way, with the draw 0 the frame throws a `TypeError`: in the grid
  scan for direction 2, inside `_make_pairs` for direction 3. That is the
  only way a frame on a board can fail (`DrawFrameFailsRarely`).
- A write whose row index is off the board only sets a property of a
  column array, which the scan never reads. The model treats it as a
  no-op.

## Model

| member | source | states |
|---|---|---|
| Grid.XyFromIndex | js/sketch.js:110-114 | the cell of index i has 0 <= x < width, y >= 0 and y * width + x == i; below width² also y < width |
| Grid.IndexRoundTrip | js/sketch.js:110-114 | index to cell inverts cell to index: xy_from_index(y * width + x) == (x, y) for every board cell |
| Grid.SetupCells | js/sketch.js:12-13 | the cell of the i-th circle `setup` makes is a board cell whose index y * cols + x is i, for each of the cols² circles |
| Grid.SetupCellsBijective | js/sketch.js:12-16 | the cells `setup` visits for i < cols² cover the board, each cell exactly once |
| Grid.FindNeighbours | js/sketch.js:136-145 | at most 4 neighbours, each at Manhattan distance 1 and tagged with its displacement's direction code; distinct directions; on the board when the cell is; and every on-board neighbour is listed |
| Randomness.RandomInt | js/sketch.js:127-131 | random_int(a, b) lies in [a, b) when a < b and in [b, a] otherwise. It reaches a only for the draw 0 when b < a, and the draw 0 always gives a |
| Randomness.RandomIntReachesAll | js/sketch.js:130 | every value of [a, b) is the result of some unit draw, so the stated range is exact |
| Randomness.RandomBelow | js/sketch.js:129 | random_int(n) lies in [0, n) for n > 0 and in [n, 0] otherwise |
| Randomness.RandomDefault | js/sketch.js:128 | random_int() is always 0 |
| Randomness.RandomFromArray | js/sketch.js:123-125 | undefined exactly for the empty array; the only element of a singleton; otherwise an element other than the last position |
| Randomness.RandomFromArrayReaches | js/sketch.js:123-125 | every position before the last is picked by some draw |
| Randomness.ShuffleFromPermutes | js/sketch.js:116-121 | the swap steps i down to 1 keep the length and the multiset of the array |
| Randomness.ShuffleFrom | js/sketch.js:117-120 | the swap steps i down to 1 keep the length and never touch a position above i |
| Randomness.Shuffled | js/sketch.js:116-121 | the whole shuffle leaves a permutation of its input: same length, same multiset |
| Randomness.ShuffleArray | js/sketch.js:116-121 | the in-place loop leaves the array equal to `Shuffled` of its old contents, a permutation of them |
| Easing.EaseInOutBounds | js/sketch.js:133-134 | on [0, 1] the easing stays in [0, 1], is 0 only at 0, and is 1 at 1 |
| Easing.EaseInOut | js/sketch.js:133-134 | the easing is 0 at 0, 1/2 at the midpoint where its halves meet, and 1 at 1 |
| Easing.EaseInOutMirror | js/sketch.js:133-134 | the ease-out half mirrors the ease-in half: easeInOut(1 - x) == 1 - easeInOut(x) for every x |
| Easing.FramePercent | js/sketch.js:20 | percent lies in [0, 1] and is 0 exactly when frameCount % duration == 0 |
| Circles.Initial | js/circles.js:2-21 | a new circle starts, sits and ends on its cell, and its trail holds exactly that point |
| Circles.Lerp | js/circles.js:63-64 | the interpolation gives the start at 0, the end at 1, and lies between them on [0, 1] |
| Circles.Moved | js/circles.js:55-65 | the trail gains the pre-move position in front and keeps min(old + 1, 30) entries, the rest a prefix of the old trail; start and end are kept; percent 0 rests on start, 1 reaches end, [0, 1] stays between |
| Circles.PairedWith | js/circles.js:67-71 | pair sets the end cell to the other circle's start cell and changes nothing else |
| Circles.Reset | js/circles.js:73-79 | resetPos makes the end the start and rests the circle there, keeping the end and the trail |
| Circles.ResetIdempotent | js/circles.js:73-79 | resetting twice is resetting once |
| Circles.ResetThenMoveStays | js/circles.js:55-79 | after resetPos, move leaves the circle on its cell whatever the fraction |
| Circles.PairMoveResetLands | js/circles.js:55-79 | pair, a full move and resetPos land the circle at rest on its partner's cell |
| Circles.TrailAfterMoves | js/circles.js:57-61 | after n moves the trail holds min(k + n, 30) entries and start and end are unchanged |
| Circles.Circle.constructor | js/circles.js:2-26 | the fields equal `Initial` of the cell, so start = current = end and the trail is one point |
| Circles.Circle.Move | js/circles.js:55-65 | the in-place unshift, splice and interpolation leave the state `Moved(old state, percent)`, trail bounded |
| Circles.Circle.Pair | js/circles.js:67-71 | the state becomes `PairedWith(old state, other's start cell)`, read through the getters |
| Circles.Circle.ResetPos | js/circles.js:73-79 | the state becomes `Reset(old state)` |
| Circles.Circle.X | js/circles.js:81-83 | the getter `x` is the column of the start cell, not of the drawn position |
| Circles.Circle.Y | js/circles.js:85-87 | the getter `y` is the row of the start cell, not of the drawn position |
| Pairing.Anchor | js/sketch.js:57 | for cols >= 2 the anchor lies in [0, cols - 2]²; for cols == 1 it is (0, 0) |
| Pairing.Directions | js/sketch.js:60-64 | direction 0, 1, 2 or 3 is pushed exactly when the anchor has room right, down, left or up |
| Pairing.ChosenDirection | js/sketch.js:65-66 | a direction is chosen exactly when the list is non-empty, and it is one of the pushed directions |
| Pairing.ShuffledMembers | js/sketch.js:65 | the shuffled direction list has the length and the members of the pushed list |
| Pairing.SideLength | js/sketch.js:71-99 | `random_int(1, max)` with max the room towards the far corner (directions 0 and 1) or the origin (2 and 3): in [1, max) when max > 1, in [max, 1] otherwise, and 1 for the draw 0 |
| Pairing.Corners | js/sketch.js:69-105 | a direction 0..3 visits four corners starting at the anchor; any other value writes nothing |
| Pairing.CycleWrites | js/sketch.js:74-77 | the written cells are the corners in write order, each write's destination is the cell the next write assigns, and the last destination is the first cell written |
| Pairing.CycleWritesPermute | js/sketch.js:74-77 | the destinations of a branch's writes are its corners again, each used as often as it is written: a permutation of the corners |
| Pairing.PlannedCorners | js/sketch.js:55-105 | `_make_pairs` writes either no corners or four |
| Pairing.Put | js/sketch.js:74 | one grid write throws exactly when the column is off the board, and then changes nothing; otherwise it sets the cell's entry when the row is on the board, and adds no other entry |
| Pairing.ApplyWrites | js/sketch.js:74-104 | a run of writes returns exactly when every written column is on the board |
| Pairing.MakePairs | js/sketch.js:55-107 | `_make_pairs` returns without throwing exactly when the anchor's column and every planned corner's column are on the board |
| Pairing.CycleWritesColumns | js/sketch.js:74-104 | a branch's writes throw exactly when one of its corners lies in a column off the board |
| Pairing.MakePairsIsPlannedWrites | js/sketch.js:55-107 | `_make_pairs` throws reading the anchor when its column is off the board; otherwise it is the cycle writes of its planned corners |
| Pairing.ApplyWritesFrame | js/sketch.js:74-104 | the writes change only the cells they name, and keep every entry on the board |
| Pairing.MakePairsFrame | js/sketch.js:55-104 | `_make_pairs` changes at most the four cells of its cycle, keeps entries on the board, and changes nothing when the anchor already holds an entry |
| Pairing.DirectionChosenOnBoard | js/sketch.js:57-66 | for cols >= 2 a direction is always chosen, and 2 and 3 only away from the matching edge |
| Pairing.CornersOnBoard | js/sketch.js:69-104 | for directions 0 and 1, and for 2 and 3 off the axes, the side is at least 1 and the four corners are distinct board cells |
| Pairing.SideOnAxis | js/sketch.js:89-90 | for directions 2 and 3 from an anchor on an axis, the side is 1 for the draw 0 and 0 otherwise |
| Pairing.CycleWritesClosed | js/sketch.js:74-77 | four board-cell writes map each corner to the next, the last to the first, and nothing else |
| Pairing.CycleEntries | js/sketch.js:74-77 | with distinct corners, each written corner holds the next corner |
| Pairing.SelfMapWrites | js/sketch.js:92-95 | a side of 0 writes one entry, the anchor to itself |
| Pairing.ClearedZeroDrawLeft | js/sketch.js:87-95 | direction 2 from the top row with the draw 0 leaves two entries, the second pointing off the board |
| Pairing.ClearedZeroDrawTop | js/sketch.js:96-104 | direction 3 from the left column with the draw 0 throws at its third write, on column -1 |
| Pairing.MakePairsFromCleared | js/sketch.js:55-107 | from an empty grid the entries lie on the board and form a single cycle whenever the scan can pair them. Any other ending needs the side draw 0, and then an off-board entry comes first in scan order |
| Pairing.PlannedCycle | js/sketch.js:69-104 | from a free anchor, unless the side draw is 0 with direction 2 or 3 from an anchor on an axis, the call returns and the four corners are board cells each mapped to the next |
| Pairing.SquareCycle | js/sketch.js:69-104 | a branch from an anchor with room, whose side the draw keeps on the board, writes a cycle of four board cells, each mapped to the next |
| Pairing.FourStepsReturn | js/sketch.js:74-104 | under the same hypothesis as `PlannedCycle` (no side draw 0 with direction 2 or 3 from an axis), the written entries close one cycle: each destination is a written cell, and four steps from any written cell return to it |
| Pairing.PermutationKeepsBijective | js/sketch.js:30-38 | following a single cycle keeps a bijection of cells onto the board a bijection |
| Animation.SetupValid | js/sketch.js:9-17 | `setup`'s circles make a valid sketch: each cell starts and ends exactly one circle |
| Animation.SetupStates | js/sketch.js:11-16 | `setup` makes one fresh circle per setup cell, in index order, so the start cells and the end cells are both exactly the setup cells |
| Animation.NoBoardThrows | js/sketch.js:57-58 | with cols == 0, `_make_pairs` throws reading the anchor |
| Animation.ResetEach | js/sketch.js:24 | the reset circles start on the old end cells and keep those end cells |
| Animation.MoveEach | js/sketch.js:47-50 | the move loop keeps every circle's start and end cells |
| Animation.PairEach | js/sketch.js:30-38 | pairing through the grid keeps the start cells and makes each end cell the entry followed from its start cell |
| Animation.DrawFrame | js/sketch.js:19-53 | a frame keeps the number of circles, fails exactly at a period start whose grid cannot be paired, and then leaves the circles only reset |
| Animation.DrawFrameKeepsValid | js/sketch.js:19-53 | a frame keeps the start cells and the end cells each a bijection onto the board, and keeps every trail bounded |
| Animation.BoundaryKeepsValid | js/sketch.js:23-50 | a completed boundary followed by the move loop keeps start and end cells bijections onto the board |
| Animation.DrawFrameFailsRarely | js/sketch.js:23-38 | a frame fails only on the first frame of a period and, on a board, only for the side draw 0 |
| Animation.DrawFrameGlides | js/sketch.js:47-50 | between boundaries every circle keeps its cells, is drawn between its start and end, and records its last position |
| Animation.DrawFrameSwaps | js/sketch.js:23-38 | at a boundary that completes, every circle starts from and rests on its old end, its new end is the grid's entry for it, and only cycle cells get an end other than their start |
| Animation.ScanAdvance | js/sketch.js:32-36 | scanning a cell with an entry pairs exactly the circle starting there |
| Animation.ScanCompleted | js/sketch.js:30-38 | a completed scan after a full reset pairs every circle with the entry of its cell, or leaves it on its own cell |
| Animation.ScanStoppedFirst | js/sketch.js:30-38 | a scan that stops at an off-board entry that comes first has paired nothing |
| Animation.ResetRests | js/sketch.js:24 | after the reset the start cells are the old end cells, a bijection, and every circle rests on its end cell |
| Animation.Sketch.constructor | js/sketch.js:9-17 | `setup` pushes cols² fresh circles, in index order, making a valid sketch |
| Animation.Sketch.ResetAll | js/sketch.js:24 | every circle's state becomes `Reset` of its old state |
| Animation.Sketch.MoveAll | js/sketch.js:47-50 | every circle's state becomes `Moved` of its old state |
| Animation.Sketch.Write | js/sketch.js:74 | one grid write: it throws exactly when `Put` does, and the array then mirrors `Put`'s grid |
| Animation.Sketch.ShuffledDirections | js/sketch.js:60-65 | the pushed and in-place shuffled list equals `Shuffled(Directions)`, a permutation of it |
| Animation.Sketch.ChooseSquare | js/sketch.js:65-105 | the corners the code writes: none without a direction, else the corners of the chosen direction and side |
| Animation.Sketch.Square | js/sketch.js:69-104 | the branch of a direction computes `SideLength` and writes the corners of that side |
| Animation.Sketch.WriteCycle | js/sketch.js:74-104 | the four writes of a branch, stopping at the first that throws, match `ApplyWrites` of the cycle writes |
| Animation.Sketch.MakePairs | js/sketch.js:55-107 | the in-place `_make_pairs` returns without throwing exactly when `Pairing.MakePairs` does, and leaves the array mirroring its grid |
| Animation.Sketch.NewPairs | js/sketch.js:25-27 | a fresh cols x cols grid of empty entries filled in place by `_make_pairs`: it returns exactly when `Pairing.MakePairs` does, the array then mirrors its grid, and no circle changes |
| Animation.Sketch.FindCircle | js/sketch.js:33-34 | the first circle starting on the cell, or none when no circle starts there |
| Animation.Sketch.CircleOn | js/sketch.js:33-34 | during the scan a circle starts on a cell exactly when the cell is on the board |
| Animation.Sketch.PairAt | js/sketch.js:35 | pairing the found circles advances the scan by one entry cell |
| Animation.Sketch.PairCell | js/sketch.js:32-36 | a cell with an entry succeeds exactly when the entry is a board cell, and then advances the scan |
| Animation.Sketch.ScanCell | js/sketch.js:31-37 | one step of the inner loop succeeds exactly when the cell has no entry or an on-board one, and then advances the scan |
| Animation.Sketch.ScanColumn | js/sketch.js:31-37 | the inner loop over a column either completes it or stops at the row whose entry is off the board |
| Animation.Sketch.ScanGrid | js/sketch.js:30-38 | the two loops either scan the whole board or stop at an off-board entry, with the circles scanned up to it |
| Animation.Sketch.Materialize | js/sketch.js:30-38 | the scan succeeds exactly when every entry is on the board, and leaves every circle `Scanned` up to the end or up to the entry it stopped at |
| Animation.Sketch.Boundary | js/sketch.js:23-38 | the boundary work completes exactly when the grid can be paired; the circles are reset and paired through the grid, or only reset when it throws |
| Animation.Sketch.PairAll | js/sketch.js:30-38 | the scan of a grid `_make_pairs` filled pairs every reset circle through the grid exactly when every entry is on the board, and otherwise pairs nothing |
| Animation.Sketch.Draw | js/sketch.js:19-53 | one in-place frame leaves the circles and its outcome as `DrawFrame` says, and keeps the sketch valid: one circle object per cell, start and end cells bijections onto the board |

## Left out

- Rendering: `Circle.show`, the canvas calls of `draw`, the radius, the
  spacing, the colours and the chromatic offsets. These are drawing through
  an external context.
- `console.table`, which is only output.
- The `Engine` host and `preload`. The board size `cols` and the period
  `duration` are constructor parameters, the host's `frameCount` is a
  parameter of `Draw`, and the trail length is the constant 30 of
  `circles.js`.
- `Math.random()`. Every call is a real draw in [0, 1) supplied by the
  caller, in the order the code makes its calls.
- Floating point. Positions, the easing and the frame fraction are exact
  reals, so rounding in `Math.pow`, in the interpolation and in
  `percent == 0` is not modelled.
- JavaScript numbers are doubles; the model's integers are exact and
  unbounded. Not modelled: the rounding of `Math.random() * (b - a)` in
  `random_int`, integers above 2^53, and the string round-trip of
  `parseInt(i / width)` in `xy_from_index`. For a width above 10^6 that
  round-trip reads an exponent-notation quotient such as `1e-7` as 1, so
  the source's `setup` can place two circles on one cell, while
  `Grid.SetupCellsBijective` holds for every width in the model.
- Exceptions. A `TypeError` ends the frame; the model returns false, or
  `Thrown` in the pure layer. The rest of that frame and the host's
  handling of the error are not modelled.
- `Point`, whose class is not part of this model. It is a pair of reals.
- `_make_pairs`' `for` loop runs exactly once, so it is written out
  straight, and `continue` is a return.
- `Animation.Sketch.FindCircle` returns the index of the circle `filter`
  finds, not the circle object.
