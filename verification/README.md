# Minesweeper field core, modelled in Dafny

This project models the game core of a small console Minesweeper, the
`Game::Core::Field` class and its `Cell` record. A field is a grid of cells
with a width, a height and a mine count. Every cell has four status bits
(opened, flagged, marked, mine), its own coordinates and the number of mines
among its up to eight neighbours. The operations are:

- `restart(w, h, m)` and the constructor that calls it: clamp the
  parameters, allocate a fresh grid and place the mines.
- `restart()`: place the mines again with the current parameters.
- `open_cell` and its recursive flood fill.
- `change_state`, which rotates a closed cell's label.
- The queries `get_cell`, `get_field_size`, `get_mines_count` and
  `get_count_of_flags`.

The model is functional. A `Field` is an immutable value holding
`seq<seq<Cell>>` indexed `[y][x]`. Each mutating operation returns the new
field, together with the reported classification where the source returns
one (`MoveResult`). A `std::nullopt` answer becomes `None`. The modules
follow the source's structure:

- `Cells`: the cell record, `get_state`, the label rotation and the flood
  fill's change to one cell.
- `Geometry`: positions, the neighbour list with its per-direction edge
  tests, and the coordinate list that mine placement draws from.
- `Fields`: the field, the queries, the brute-force reference for
  neighbour counts, and the invariant `Valid`. `Valid` means:
  - the parameters are clamped;
  - every cell records its own position;
  - labels are consistent;
  - every neighbour count is correct;
  - the field holds exactly `minesCount` mines.
- `Labels`: `change_state` and `get_count_of_flags`.
- `Opening`: `open_cell` and the flood fill.
- `Generation`: clamping, mine placement, neighbour counting and both
  `restart` overloads.
- `Optional`: the `Option` type.

The random shuffle is a parameter. `draw: nat -> nat` stands for the
random source. Round `i` of the placement loop moves the entry at index
`draw(i) mod length` to the back of the remaining list, and pops it. Any
shuffle followed by a pop picks some remaining entry, and every choice is
reachable through some `draw`. So the model covers every placement the
source can produce. It does not cover their probabilities.

## Model

| member | source | states |
|---|---|---|
| Cells.GetState | Core/Field.cpp:26-39 | Each of the five classifications holds exactly when its status-bit condition holds. An opened cell shows whether it is a mine. A closed one shows its label, with a flag taking precedence over a mark. |
| Cells.EveryStateOccurs | Core/Field.h:28 | Every one of the five declared cell types is the classification of some cell. |
| Cells.Opened | Core/Field.cpp:148-150 | A cell opened by the fill reports OpenedMine or OpenedEmpty according to its mine bit. It carries no label. Its mine, count and coordinates are unchanged. |
| Cells.CycleLabel | Core/Field.cpp:62-72 | An opened cell is untouched. A closed cell moves one step along empty -> flagged -> marked -> empty, and ends with consistent labels even if it started with both bits set. Only the label bits change. |
| Geometry.NeighboursExact | Core/Field.cpp:121-128 | The per-direction edge tests list exactly the in-range positions adjacent to the cell. None is missed, there is no wrap-around, and nothing falls outside the grid. |
| Geometry.NeighboursDistinct | Core/Field.cpp:121-128 | No neighbour is listed twice, and there are at most eight. |
| Geometry.Coordinates | Core/Field.cpp:105-110 | The coordinate list holds every position of the grid exactly once, so it has width * height entries. |
| Fields.MinesAroundIsBruteForce | Core/Field.cpp:118-131 | The count summed over the neighbour list equals the number of mines adjacent to the cell anywhere on the board. It is at most 8, and it is 0 exactly when no neighbour is a mine. |
| Fields.GetCell | Core/Field.cpp:76-81 | Returns None exactly for coordinates outside the field, and otherwise the cell at (x, y). In a valid field that cell records x and y and has consistent labels. |
| Fields.GetFieldSize | Core/Field.cpp:83-85 | The returned pair bounds exactly the coordinates for which get_cell finds a cell. In a configured field both sides are at least 10, and the grid has room for the mines plus two more cells. |
| Fields.GetMinesCount | Core/Field.cpp:87-89 | In a configured field the count lies between 2 and width * height - 2. In a valid field it is the number of cells that hold a mine. |
| Labels.ChangeState | Core/Field.cpp:58-74 | Returns None exactly for out-of-range coordinates, leaving the field alone. On an opened cell it changes nothing and reports the classification. On a closed cell it reports the next label in the rotation, which the cell now shows. No other cell changes, and no cell's mine, count, coordinates or opened bit changes. |
| Labels.ChangeStateKeepsValid | Core/Field.cpp:58-74 | change_state preserves the field invariant. |
| Labels.ChangeStateThrice | Core/Field.h:63-66 | Three label changes on a closed cell with consistent labels give back the original field. |
| Labels.ChangeStateFlags | Core/Field.cpp:62-72 | Flagging an unlabelled cell adds exactly that cell to the flagged set, so the flag count grows by one. Turning a flag into a mark removes it, so the count drops by one. Every other case leaves the flagged set as it was. |
| Labels.CountOfFlags | Core/Field.cpp:134-141 | The row-by-row scan returns the number of positions that are closed and flagged. |
| Opening.FloodOpen | Core/Field.cpp:143-161 | The recursion terminates. It keeps the dimensions and mine count, and it never closes a cell. |
| Opening.FloodOpenEvolves | Core/Field.cpp:143-161 | The fill only opens formerly closed cells, clearing their labels. Opened cells, mines, counts and coordinates are untouched, and the starting cell ends up opened. |
| Opening.FloodOpenClosed | Core/Field.cpp:151-160 | Every cell the fill newly opens whose count is 0 has all its in-range neighbours opened. |
| Opening.FloodOpenSound | Core/Field.cpp:143-161 | Every cell the fill newly opens is reachable from the starting cell. The walk steps between adjacent closed cells and passes only through cells whose count is 0. |
| Opening.FloodOpenCharacterised | Core/Field.cpp:143-161 | Starting on a closed cell, the fill opens exactly the closed cells reachable that way: no more and no fewer. |
| Opening.FloodOpenNoOtherMine | Core/Field.cpp:151-160 | With correct counts, no mine is opened by the cascade. Only the starting cell itself can be a mine. |
| Opening.OpenCell | Core/Field.cpp:47-56 | Returns None exactly out of range. An opened, flagged or marked cell is left alone and its current classification reported. Any other cell is opened by the fill, and the report is OpenedMine or OpenedEmpty according to the cell's mine bit. |
| Opening.OpenCellKeepsValid | Core/Field.cpp:47-56 | open_cell only opens cells and preserves the field invariant. Its flag count drops by exactly the flagged cells it opened. |
| Generation.ClampDim | Core/Field.cpp:92-93 | A side below 10 becomes 10, and any other side is kept. |
| Generation.ClampMines | Core/Field.cpp:94-95 | The count ends in [2, w*h - 2]. An in-range request is kept, an oversized one becomes w*h - 2, and one below 2 becomes 2. |
| Generation.Fresh | Core/Field.cpp:96 | The freshly allocated grid has the requested shape. It holds no mine and every cell is closed and unlabelled. |
| Generation.FreshCells | Core/Field.h:31 | Every default-constructed cell is closed, unlabelled and mine-free. |
| Generation.Picks | Core/Field.cpp:111-117 | The placement loop pops exactly count entries, all taken from the coordinate list and none twice. Its requires, count at most the list length, is what the mine clamp guarantees, so no pop hits an empty list. |
| Generation.DrawnMinesCount | Core/Field.cpp:111-117 | The drawn mines are minesCount distinct cells of the board. |
| Generation.PlaceMines | Core/Field.cpp:105-117 | Every cell records its own coordinates. A cell is a mine afterwards exactly when it was one before or was drawn. Opened and label bits are untouched. |
| Generation.CountNeighbours | Core/Field.cpp:118-131 | Every stored count equals the brute-force count of adjacent mines. Mines and every other field of every cell are unchanged. |
| Generation.Regenerate | Core/Field.cpp:100-132 | restart() as written. Width, height and mine count are unchanged. Coordinates and counts are correct afterwards. The mine set is the old mine set plus the drawn mines. Opened and label bits carry over from the previous game. |
| Generation.RegenerateCleared | Core/Field.cpp:100-132 | restart() as intended. The result satisfies the whole invariant, holds exactly the drawn mines, and every cell is closed and unlabelled. |
| Generation.Restart | Core/Field.cpp:91-98 | The constructor and restart(w, h, m) give clamped dimensions and a clamped mine count. The field satisfies the invariant, every cell is closed and unlabelled, and the mines are exactly the drawn ones. |
| Generation.RegenerateOnBlank | Core/Field.cpp:96-117 | On a grid whose cells are all closed, unlabelled and mine-free, restart() as written gives exactly the result of the corrected restart(), whatever coordinates and counts the cells held. This is the grid restart(w, h, m) allocates at line 96, so that path is correct. |
| Generation.RegenerateOvercounts | Core/Field.cpp:100-117 | restart() on a valid field whose old mine is not drawn again leaves more mines on the field than get_mines_count reports. |
| Generation.StaleRestartExample | Core/Field.cpp:100-117 | A 10 x 10 field with 2 mines at (0, 0) and (0, 1) is restarted with draws that pick (5, 0) and (5, 1). It ends with 4 mines while reporting 2. |

## Left out

- Terminal rendering and the input loop in `main.cpp` only read cell states and pass coordinates in. They are not part of this model.
- The random device, the Mersenne Twister and the uniformity of `std::shuffle` are not modelled. The shuffle is the caller-supplied `draw` function, so the model covers which placements can happen, not how likely they are.
- Generation.Picks keeps the remaining entries in their original order after a pop, where the source leaves them shuffled. Every later round reshuffles the whole list anyway, so the set of reachable placements is the same.
- Generation.Restart requires sides below 2^16 and a count below 2^32, the ranges of the source's `uint16_t` and `uint32_t` parameters. It also requires the clamped product to fit the signed `int` in which `width*height - 2` is computed; larger sides overflow in the source.
- Other fixed-width integers are unbounded naturals here: `uint16_t` coordinates and `uint8_t` neighbour counts. Neighbour counts never exceed 8, so `uint8_t` never wraps.
- The coordinates passed to `open_cell`, `change_state` and `get_cell` are `nat` rather than `uint16_t`. Every value a `uint16_t` can hold is covered.
- The neighbour count of a default-constructed cell is left uninitialised by the source. It is 0 here, and every generation overwrites it before the field is handed out.
- Deep recursion of the flood fill can exhaust the stack on very large fields. Stack depth is not modelled.
- `get_cell` returns a copy. Values are immutable here, so the copy is implicit.
- The constructor is not a separate member. It is `Restart`, which is all the constructor calls.

## Findings

| source | as written | input that shows it | evidently intended | confidence | as-written member | corrected member |
|---|---|---|---|---|---|---|
| Core/Field.cpp:100-117 | restart() re-marks drawn cells as mines without first clearing the grid. Mines of the previous layout stay mines, and opened, flagged and marked bits carry over. The header calls it a regeneration with the old parameters. | A 10 x 10 field with 2 mines drawn at (0, 0) and (0, 1) (draws 0, 0), restarted with draws 50, 50, which pick (5, 0) and (5, 1). The field then holds 4 mines while get_mines_count reports 2. | Reset every cell to the default state before placing the mines, as restart(w, h, m) does. The field then holds exactly minesCount mines, all closed and unlabelled. | high, not executed | Generation.StaleRestartExample | Generation.RegenerateCleared |

The higher-level property behind the finding is Generation.RegenerateOvercounts.
It holds for any valid field with an old mine that is not drawn again.
The header comment at Core/Field.h:81 calls restart() a regeneration of the field with the old parameters.
restart(w, h, m) builds fresh default cells at Core/Field.cpp:96 before calling it, so that path starts from a clean grid (Generation.RegenerateOnBlank).
restart() itself, at Core/Field.cpp:100-117, only ever sets `is_mine` and clears nothing.
The model follows the code in `Generation.Regenerate`.
