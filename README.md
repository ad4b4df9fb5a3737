# Map board and coin pits

This project models the two pieces of logic inside a Leaflet geocaching demo:

- **The map board** (`src/board.ts`, class `Board`). Two constants fix the grid: the tile width and the visibility radius, in cells. A mutable registry `knownCells` maps each coordinate key to the cell stored under it. The board turns a point into its cell and registers that cell. It gives the rectangle, in degrees, that a cell covers. It also enumerates the cells around a point, registering each one and returning them in a nested-loop order.
- **The coin pits** (`src/main.ts`). A shared counter `collectedCoins` holds the player's coins. Each pit has its own `coins` counter. "Collect" moves one coin from a pit to the player, guarded by the pit holding a coin. "Deposit" moves one coin back, guarded by the player holding a coin. At start-up, the cells around the classroom are filtered by a `luck` draw, and a pit is created on each cell that passes.

There are three modules:

- `Board` (`board.dfy`):
  - `Cell`, `Point` and `Bounds` values;
  - the specification functions `Steps`, `Row`, `Grid` and `NearCells` for the loops, and `RegisterAll` for the registry writes;
  - the class `Board`.
- `Seeds` (`seeds.dfy`): the seed strings `"i,j"` and `"i,j,initialValue"` that the demo hands to `luck`, with their parse round trip and injectivity.
- `Pits` (`pits.dfy`):
  - pit values and the player's counter in a `Ledger`;
  - the pure steps `AfterCollect` and `AfterDeposit`;
  - the spawn filter `Spawned`;
  - the class `Game`, whose methods update `pits` and `collectedCoins` in place.

`luck` is a parameter of type `string -> real` with values in [0, 1). The map from a scaled coordinate to a cell index is a parameter `quantize: real -> int`. The pure part of the spawn model takes the two per-cell draws, `SpawnLuck(luck)` and `ValueLuck(luck)`, rather than `luck` itself.

Facts about the code that shape the model:

- `getCanonicalCell` always overwrites the registry entry and returns its argument (src/board.ts:26-27).
- `getCellForPoint` scales a point by 1e4 without rounding (src/board.ts:31-32).
- A pit's initial coins are `floor(luck("i,j,initialValue") * 100)` (src/main.ts:60).

The seed lemmas explain why every cell gets draws of its own. `luck` is called on `"i,j"` to decide whether a cell holds a pit, and on `"i,j,initialValue"` to size the pit.
- `Seeds.CellSeedInjective` and `Seeds.ValueSeedInjective` show that distinct cells never share a seed.
- `Seeds.SeedsDiffer` shows that a spawn seed never equals a coin-count seed.

So for a cell, both draws are separate values of `luck`, shared with no other cell and with neither other kind of draw. This is why the spawn model's per-cell draws `SpawnLuck(luck)` and `ValueLuck(luck)` can be read as independent.

## Model

| member | source | states |
|---|---|---|
| Board.StepsLength | src/board.ts:51-55 | the loop `for (x = lo; x < hi; x += w)` takes exactly ceil((hi - lo) / w) steps, and none when lo >= hi |
| Board.StepsEnd | src/board.ts:51-55 | after the last step the loop variable has reached hi |
| Board.StepsAt | src/board.ts:51-55 | the k-th value of the loop variable is lo + k*w and lies in [lo, hi) |
| Board.StepsAscending | src/board.ts:51-55 | the loop variable takes strictly ascending values |
| Board.StepsMember | src/board.ts:51-55 | x is visited if and only if lo <= x < hi and x is a whole number of steps from lo |
| Board.GridLength | src/board.ts:51-64 | the nested loops produce \|rows\| * \|cols\| cells |
| Board.GridAt | src/board.ts:51-62 | row-major layout: position a*\|cols\| + b holds the origin offset by (rows[a], cols[b]) |
| Board.GridMember | src/board.ts:51-62 | a cell is produced if and only if its i-offset is a row offset and its j-offset a column offset |
| Board.GridSorted | src/board.ts:51-63 | with ascending offsets, the produced cells are strictly ascending, ordered by i and then by j |
| Board.NearCellsLength | src/board.ts:47-66 | the neighbourhood of radius r with step w has ceil(2r/w)^2 cells |
| Board.GameNeighbourhoodSize | src/board.ts:51-64 | with the game's board (tile width 1, radius 8, src/main.ts:17) the neighbourhood has 256 cells |
| Board.NearCellsAt | src/board.ts:51-61 | the cell at position a*n + b is the origin offset by (-r + a*w, -r + b*w), for n = ceil(2r/w) |
| Board.NearCellsMember | src/board.ts:51-61 | a cell is in the neighbourhood if and only if both offsets lie in [-r, r) and are whole multiples of w from -r |
| Board.NearCellsSorted | src/board.ts:51-63 | the neighbourhood is in row-major ascending order, with no cell repeated |
| Board.RegisterOne | src/board.ts:25-26 | one write maps the key to the cell and adds at most that one key; other entries are unchanged and the registry stays canonical |
| Board.RegisterAllAppend | src/board.ts:49-64 | registering a + b is registering a and then b |
| Board.RegisterAllKeys | src/board.ts:62 | registering a sequence of cells adds exactly their keys |
| Board.RegisterAllStores | src/board.ts:62 | after registering a sequence of cells, each cell is the entry under its own key |
| Board.RegisterAllKeeps | src/board.ts:62 | keys that none of the cells have keep their entries |
| Board.RegisterAllCanonical | src/board.ts:25-26 | repeated registration keeps every entry stored under its own coordinates |
| Board.Board.constructor | src/board.ts:17-21 | stores the tile width and radius and starts with an empty registry |
| Board.Board.GetCanonicalCell | src/board.ts:23-28 | overwrites the entry for (i, j) with the cell and returns that same cell; at most one key is added; every other entry is unchanged |
| Board.Board.GetCellForPoint | src/board.ts:30-34 | returns the cell of the scaled point and registers it |
| Board.Board.GetCellBounds | src/board.ts:36-45 | the smallest box holding both corners (i, j)*1e-4 and (i+w, j+w)*1e-4; for w >= 0 its lower corner is the cell's own corner |
| Board.PointInItsCell | src/board.ts:30-44 | when indices are rounded down and the tile width is at least 1, a point lies in the bounds of its own cell |
| Board.Board.VisitRow | src/board.ts:56-63 | one pass of the inner loop: returns the row of cells at i-offset di and registers each of them in order |
| Board.Board.GetCellsNearPoint | src/board.ts:47-66 | returns NearCells of the origin cell, and the registry is the old one after writing the origin and then every returned cell; the origin and every returned cell are registered; no key is lost |
| Seeds.NatRoundTrip | src/main.ts:100 | the decimal text of a natural number reads back as that number |
| Seeds.IntRoundTrip | src/main.ts:100 | the text of an integer, with its '-' sign, is a numeral and reads back as that integer |
| Seeds.CellSeedInjective | src/main.ts:100 | distinct cells have distinct spawn seeds "i,j" |
| Seeds.ValueSeedInjective | src/main.ts:60 | distinct cells have distinct coin-count seeds "i,j,initialValue" |
| Seeds.SeedsDiffer | src/main.ts:60 | a coin-count seed never equals a spawn seed |
| Pits.ValueLuckRange | src/main.ts:60 | a luck function with values in [0, 1) gives a coin-count draw in [0, 1) for every cell |
| Pits.InitialCoins | src/main.ts:60 | the initial count is the floor of luck("i,j,initialValue") * 100, hence below 100 |
| Pits.AfterCollect | src/main.ts:69-79 | if the pit has a coin, its count drops by one and the player's rises by one, otherwise nothing changes; other pits are untouched; the total of coins is conserved |
| Pits.AfterDeposit | src/main.ts:82-92 | if the player has a coin, the pit's count rises by one and the player's drops by one, otherwise nothing changes; other pits are untouched; the total of coins is conserved |
| Pits.CollectThenDeposit | src/main.ts:69-92 | a successful collect followed by a deposit on the same pit restores both counters |
| Pits.DepositThenCollect | src/main.ts:69-92 | a successful deposit followed by a collect on the same pit restores both counters |
| Pits.RunConserves | src/main.ts:69-92 | any sequence of clicks keeps the total of coins, the number of pits and each pit's cell |
| Pits.SpawnedSpec | src/main.ts:98-103 | the spawn loop creates a pit for exactly the cells whose spawn draw is below 0.1, in the order of the cells, each with its initial coins |
| Pits.SpawnedDistinct | src/main.ts:98-103 | spawning over distinct cells puts the pits on distinct cells |
| Pits.Game.constructor | src/main.ts:52 | no pits and no collected coins |
| Pits.Game.MakePit | src/main.ts:56-60 | appends a pit on the cell holding its initial coins; the player's counter is unchanged |
| Pits.Game.Collect | src/main.ts:69-79 | succeeds if and only if the pit had a coin; the new counters are AfterCollect of the old ones |
| Pits.Game.Deposit | src/main.ts:82-92 | succeeds if and only if the player had a coin; the new counters are AfterDeposit of the old ones |
| Pits.Game.SpawnPits | src/main.ts:98-103 | the loop appends Spawned(cells) to the pits and adds their coins to the total; the player's counter is unchanged |
| Pits.StartGame | src/main.ts:98-103 | the game's board (tile width 1, radius 8) lists 256 cells around the classroom; the pits are Spawned over them on pairwise distinct cells; no coins are collected |

## Left out

- Floating-point scaling:
  - `getCellForPoint` multiplies by 1e4 in double precision and keeps the fractional index.
  - The model maps the scaled coordinate to an integer index with the parameter `quantize`.
  - Bounds and scaling use exact reals, with no rounding.
- Board.Board.GetCellForPoint: models the index as `quantize(lat * 1e4)`, not the unrounded double that the source stores, because cells are taken to be integer pairs.
- Object identity:
  - Cells are values, so "the same instance" cannot be stated.
  - The source never reuses an instance anyway, because it overwrites the registry entry.
- Registry keys are coordinate pairs, not the string `[i, j].toString()`. Since that string is injective on integer pairs (`Seeds.CellSeedInjective`), the two registries agree.
- Board.Board.GetCellsNearPoint: requires a positive tile width whenever the radius is positive, because the source loop never ends otherwise.
- Board.Board.VisitRow: the inner loop of `getCellsNearPoint` is written as its own method. It is not a separate function in the source.
- Seeds.IntToString: matches JavaScript's text of a number only for integers below 1e21 in magnitude, and so do `Seeds.CellSeed` and `Seeds.ValueSeed`; larger numbers print in exponent form, which is not modelled.
- src/luck.ts is not part of this model: `luck` is a parameter with values in [0, 1).
- Pits are a sequence in spawn order, addressed by index. Each `makePit` call creates its own closure-held counter, so a sequence is closer to the source than a map keyed by cell. The spawned cells are proved distinct, so the two views agree.
- Counters are `nat`. The source guards both decrements, and `AfterCollect` and `AfterDeposit` test the same conditions before decrementing, so a counter never goes negative.
- UI work is not modelled: Leaflet, the DOM popups and rectangles, `innerHTML` updates, `alert`, the tiles and the player marker.
- The geolocation watch is not modelled: it is sensor input driven by events.
- The demo's module-level start-up code is modelled as one method, `StartGame`, that takes `quantize` and `luck` as parameters.
