# Level grid of the platformer, modelled in Dafny

This project models the level grid of the browser platformer in `script.js`:

- the `CELLTYPES` symbol table and its key, lock and portal character classes;
- the `MovingPlatform` record;
- the `Level` object, with these members:
  - the total cell lookup `get_cell`;
  - the memoised `dimensions` getter;
  - `extract_moving_platform`, which blanks a GROUND cell beside a connector, walks outward to the nearest boundary on each side and appends a platform;
  - the load-time sweep in `initialize`, which splits the level text on `'\n'` and runs the extraction in row-major order over the cells of [0, width) x [0, row count - 1), so the last row is never visited.

Modules:

- `CellTypes` (`celltypes.dfy`): the symbol constants and `IsKey`/`IsLock`/`IsPortal`, modelled as a regular-expression search for a character range.
- `Text` (`text.dfy`): JavaScript's `split` for a one-character separator, with the join round trip in both directions.
- `Grid` (`grid.dfy`):
  - the pure grid: the cell lookup `CellAt`, the width fold, `substr` and `replace`, rows and columns read through the lookup;
  - the two boundary walks as functions, `NearestAtOrBefore` and `NearestAtOrAfter`;
  - the specification of one extraction: `AxisAt` (which axis, if any, a cell spawns on), `Extracted` (the platform it yields) and `ExtractAt` (the rows after it).
- `Extraction` (`extraction.dfy`): the specification of the whole sweep, stated on the rows as first split.
  - `Erased` is the rows once the sweep stands at a cell.
  - `SweepCells` is the spawning cells in row-major order.
  - `Sweep` is the platforms of those cells, in that order.
- `Levels` (`level.dfy`): the `Level` class.
  - Its fields are those of the JavaScript object. The `_dimensions` cache is `dims`.
  - `GetCell` and `Dimensions` model the lookup and the cached getter.
  - Four walk methods model the four `while` loops of `extract_moving_platform`, and `ExtractHorizontal` and `ExtractVertical` its two branches.
  - `ExtractMovingPlatform` updates `lines[y]` in place and appends to `movingPlatforms`.
  - `ExtractRow` and `ExtractAll` are the two nested `for` loops of `initialize`, and `Initialize` is the method itself.
  - Each method is proved against the specification functions above.

### Behaviour of script.js the model makes explicit

- Only the spawning GROUND cell is blanked. The connectors and boundaries stay in the rows, because `replace` rewrites position `x` alone (script.js:93-95, 99, 111).
- A lookup outside the rows, or past the end of a short row, is AIR. The row bound is `lines.length`, not the height `lines.length - 1`, so the last row can still be addressed even though the sweep never visits it (script.js:128, 136).
- The boundary walks have no distance cap and raise no error: on a row or column without a boundary they never stop. The model makes that condition explicit:
  - `CanScan` states that a boundary exists on both sides.
  - `NoBoundaryBefore` and `NoBoundaryAfter` state that without one, every cell the walk visits differs from the boundary, so the loop never exits.
  - `ExtractMovingPlatform` requires `CanScan` of its cell, and `Initialize` requires it of every swept cell.

## Model

| member | source | states |
|---|---|---|
| CellTypes.MatchesRange | script.js:60-62 | `c.match("[lo-hi]")` succeeds exactly when some character of `c` lies in the range |
| CellTypes.IsKey | script.js:60 | `isKey` holds exactly when some character of the cell text is a lowercase letter |
| CellTypes.IsLock | script.js:61 | `isLock` holds exactly when some character of the cell text is an uppercase letter |
| CellTypes.IsPortal | script.js:62 | `isPortal` holds exactly when some character of the cell text is a digit |
| CellTypes.SingleCellClasses | script.js:60-62 | on a single character, key holds exactly for a-z, lock for A-Z and portal for 0-9 |
| CellTypes.ClassesDisjoint | script.js:60-62 | no single character is two of key, lock and portal |
| CellTypes.SymbolsAreNotClassed | script.js:48-62 | none of the named cell symbols is a key, a lock or a portal |
| Text.Split | script.js:77 | splitting always yields at least one row, so the loaded level is never empty |
| Text.SplitRowsPlain | script.js:77 | no split row contains the separator |
| Text.JoinSplit | script.js:77 | joining the split rows with the separator gives back the text, so splitting loses nothing |
| Text.SplitJoin | script.js:77 | splitting undoes joining rows that contain no separator |
| Text.SplitPlain | script.js:77 | a text without the separator splits into itself alone |
| Text.SplitCons | script.js:77 | a separator after a separator-free prefix ends the first row and starts the rest |
| Grid.CellAt | script.js:135-144 | the lookup is `rows[y][x]` inside the rows and AIR for a negative coordinate, a row at or past `lines.length`, or a position past the end of a short row |
| Grid.Width | script.js:129 | the width is at least every row's length and equals some row's length: the maximum row length |
| Grid.OutsideIsAir | script.js:135-144 | every lookup outside [0, width) x [0, rows) is AIR |
| Grid.WidthOfSameLengths | script.js:129 | the width depends only on the row lengths |
| Grid.Substr | script.js:94 | `substr` never returns more characters than the string has, and for a start within the string and a non-negative length it is the slice from the start, clamped to the end of the string |
| Grid.Replace | script.js:93-95 | for x within the line, `replace` keeps the length, puts AIR at x and keeps every other position |
| Grid.Row | script.js:135-144 | reading row y at k, with AIR outside the row, is the lookup at (k, y) |
| Grid.Column | script.js:135-144 | column x has one entry per row, and reading it at k is the lookup at (x, k) |
| Grid.NearestAtOrBefore | script.js:101-103 | the left/top walk stops at a boundary at or before its start, with no boundary between the two |
| Grid.NearestAtOrAfter | script.js:104-106 | the right/bottom walk stops at a boundary at or after its start, with no boundary between the two |
| Grid.BackwardStep | script.js:102-103 | stepping left or up past a non-boundary cell keeps the walk's destination |
| Grid.BackwardStop | script.js:102-103 | the left or up walk stops at once on a boundary |
| Grid.ForwardStep | script.js:105-106 | stepping right or down past a non-boundary cell keeps the walk's destination |
| Grid.ForwardStop | script.js:105-106 | the right or down walk stops at once on a boundary |
| Grid.NoBoundaryBefore | script.js:102-103 | without a boundary at or before the start, every cell the walk visits is not a boundary, so it never exits |
| Grid.NoBoundaryAfter | script.js:105-106 | without a boundary at or after the start, every cell the walk visits is not a boundary, so it never exits |
| Grid.SameMarksSameWalks | script.js:101-106 | two lines with boundaries at the same places give walks that terminate alike and stop at the same places |
| Grid.AxisAt | script.js:90-121 | a cell spawns only if it is GROUND with some connector beside, above or below it (otherwise nothing happens), and it spawns vertically only when no horizontal connector is beside it |
| Grid.VerticalWhenNoHorizontal | script.js:109-110 | a GROUND cell with no horizontal connector beside it and a vertical connector above or below it moves vertically |
| Grid.Extracted | script.js:97-121 | a cell yields at most one platform, exactly when it spawns, and that platform is at the cell and moving towards its end |
| Grid.ExtractAt | script.js:93-111 | the rows after one extraction keep the row count, and nothing changes for a cell that does not spawn |
| Grid.ExtractAtCells | script.js:93-99 | one extraction keeps the row count, every row length and the width; it changes row y only, and only cell (x, y), to AIR, exactly when the cell spawns |
| Grid.NotGroundUnchanged | script.js:90-91 | a non-GROUND cell yields no platform and leaves the rows unchanged |
| Grid.HorizontalWins | script.js:97-98 | a GROUND cell beside a horizontal connector moves horizontally, whatever lies above or below it |
| Grid.ExtractedHorizontal | script.js:97-108 | a horizontal cell yields exactly one platform, at its cell and moving towards its end; it runs from the nearest '/' to the left to the nearest '/' to the right, with no '/' in between |
| Grid.ExtractedVertical | script.js:109-120 | a vertical cell yields exactly one platform, at its cell and moving towards its end; it runs from the nearest '_' above to the nearest '_' below, with no '_' in between |
| Extraction.ErasedCellKeepsMarks | script.js:80-84 | blanking GROUND cells keeps every other symbol where it was |
| Extraction.ExtractAtErases | script.js:99 | one extraction only turns GROUND into AIR |
| Extraction.ErasedRowMarks | script.js:101-106 | after blanking, each row has its boundaries at the same places |
| Extraction.ErasedColumnMarks | script.js:113-118 | after blanking, each column has its boundaries at the same places |
| Extraction.ExtractedUnderErasure | script.js:80-84 | an unblanked cell of blanked rows has the same axis, the same terminating walks and the same platform as in the split rows |
| Extraction.ErasedNothing | script.js:77-80 | the sweep starts on the rows as split |
| Extraction.ErasedRowEnd | script.js:80-81 | finishing row y is the same as standing at the start of row y + 1 |
| Extraction.ErasedStepScans | script.js:82 | when the sweep reaches (x, y), that cell still extracts what the split rows say |
| Extraction.ErasedStepAdvance | script.js:82 | extracting at (x, y) advances the blanked region by exactly that cell |
| Extraction.ErasedShape | script.js:80-84 | the sweep keeps the row count, every row length and so the cached width |
| Extraction.SweptCells | script.js:80-84 | after the sweep, every spawning cell of the swept rectangle is AIR and every other cell is as split |
| Extraction.PlatformOfCell | script.js:108 | the platform recorded for a cell is at that cell, and for a spawning cell it is the one extraction yields |
| Extraction.PlatformsAppend | script.js:108 | the platforms of two runs of cells are the platforms of each run, one after the other |
| Extraction.RowSweepStep | script.js:81-82 | visiting (x, y) appends exactly what extraction at (x, y) yields |
| Extraction.SweepCellStep | script.js:81-82 | one cell of the inner loop advances both the blanked rows and the platforms found by that cell |
| Extraction.SweepRowStep | script.js:80-81 | one row of the outer loop appends that row's platforms after those of the rows above |
| Extraction.RowCellsAt | script.js:81 | the spawning cells collected from a row lie in that row, left of the bound, and spawn |
| Extraction.RowCellsIncreasing | script.js:81 | a row's spawning cells come strictly left to right |
| Extraction.RowCellsComplete | script.js:81 | every spawning cell of the row left of the bound is collected |
| Extraction.SweepCellsAt | script.js:80-81 | the sweep's spawning cells lie in [0, width) x [0, height) and spawn |
| Extraction.SweepCellsOrdered | script.js:80-81 | the sweep's spawning cells come in strictly increasing row-major order |
| Extraction.SweepCellsComplete | script.js:80-81 | every spawning cell of [0, width) x [0, height) is among the sweep's cells |
| Extraction.SweepPlaced | script.js:80-84 | each platform found sits on a spawning cell of the swept rectangle and is the platform the split rows specify there |
| Extraction.SweepOrdered | script.js:80-84 | the platforms come in strictly increasing row-major order of their cells, so no cell yields two |
| Extraction.SweepComplete | script.js:80-84 | every spawning cell of the swept rectangle yields a platform |
| Levels.Level.constructor | script.js:66-73 | a new level has its id, no cached dimensions, no text, no rows and no platforms |
| Levels.Level.GetCell | script.js:135-144 | the lookup is total: `lines[y][x]` inside the rows, AIR outside them or past the end of a short row |
| Levels.Level.Dimensions | script.js:124-133 | the first read caches and returns [maximum row length, row count - 1]; later reads return the cached value and change nothing |
| Levels.Level.WalkLeft | script.js:101-103 | the left loop ends at the nearest '/' at or left of its start |
| Levels.Level.WalkRight | script.js:104-106 | the right loop ends at the nearest '/' at or right of its start |
| Levels.Level.WalkUp | script.js:113-115 | the upward loop ends at the nearest '_' at or above its start |
| Levels.Level.WalkDown | script.js:116-118 | the downward loop ends at the nearest '_' at or below its start |
| Levels.Level.ExtractMovingPlatform | script.js:89-122 | it keeps the level valid; the rows become `ExtractAt` of the old rows and the platforms gain exactly `Extracted` of the old rows: at most one platform, horizontal first, nothing changed for a non-spawning cell |
| Levels.Level.ExtractHorizontal | script.js:97-108 | the horizontal branch blanks the cell and appends exactly the platform between the nearest '/' on each side |
| Levels.Level.ExtractVertical | script.js:109-120 | the vertical branch blanks the cell and appends exactly the platform between the nearest '_' above and below |
| Levels.Level.ExtractRow | script.js:81-83 | the inner loop blanks the spawning cells of row y and appends that row's platforms left to right |
| Levels.Level.ExtractAll | script.js:80-84 | the nested loops blank every spawning cell of [0, width) x [0, height) and append their platforms in row-major order |
| Levels.Level.Initialize | script.js:75-84 | loading stores the text and caches the dimensions of the split rows (or keeps a cache already set); the rows and platforms become those of the sweep over the split rows |
| Levels.RowWalksAfterBlanking | script.js:99-106 | after the cell is blanked, both row walks still terminate and stop at the boundaries of the unblanked row |
| Levels.RowMarksAfterBlanking | script.js:99 | blanking a GROUND cell keeps its row's '/' marks |
| Levels.ColumnWalksAfterBlanking | script.js:111-118 | after the cell is blanked, both column walks still terminate and stop at the boundaries of the unblanked column |
| Levels.ColumnMarksAfterBlanking | script.js:111 | blanking a GROUND cell keeps its column's '_' marks |
| Levels.SameMarksOffOne | script.js:93-95 | two lines equal except at one position that holds the mark in neither have the same marks |

## Left out

- Loading the file (`getFile` and the global file cache, script.js:1-23) is asynchronous I/O. `Initialize` takes the text as a parameter.
- Rendering (`DrawParams`, `draw_cell`, `drawLevel`) and the empty `InteractiveObjects` class are not part of this model.
- Levels.Level.ExtractMovingPlatform: requires that boundaries exist on both sides along the cell's axis (`CanScan`). The source loops forever without them, and a non-terminating loop is not modelled.
- Levels.Level.Initialize: requires `CanScan` of every swept cell, for the same reason.
- Extraction.PlatformOf: for a cell that does not spawn, or whose walks never stop, it gives a placeholder platform at the cell. Such cells never occur in the sweep of `Initialize`, which requires every walk to terminate (`SweepPlaced`).
- The `dimensions` getter is read before every loop iteration in the source. The model reads it once, since `Dimensions` proves that every later read returns the cached value unchanged.
- Before loading, `lines` is `null` in the source; no call site in script.js reads the level then. The model uses the empty sequence instead.
  - `get_cell` with a negative coordinate still returns AIR in the source, because the `x < 0 || y < 0` test comes before `this.lines.length` is read (script.js:136), and `extract_moving_platform` at such a cell returns at once (script.js:90-91). The model agrees.
  - `get_cell` and `extract_moving_platform` with both coordinates non-negative would throw a TypeError in the source. In the model `GetCell` returns AIR and `ExtractMovingPlatform` does nothing.
  - Every read of `dimensions` would throw a TypeError in the source (script.js:128). In the model `Dimensions` requires the level to be initialised.
- `Width` of no rows is 0, where JavaScript's `reduce` would throw. It never arises, because a split always yields at least one row.
- Re-initialising a level does not invalidate a cached `_dimensions` in the source. `Initialize` models this: a cache already set bounds the sweep and is kept.
- The boundary walks and the two branches of `extract_moving_platform` are modelled as separate methods, and the two nested loops of `initialize` as `ExtractRow` and `ExtractAll`. The code they run is the same as in `initialize` and `extract_moving_platform`.
- The boundary coordinates are modelled as integers, not as two-element arrays mutated in place. Nothing else holds a reference to those arrays before the platform is built.
