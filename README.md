# Cellular automaton engine of gol-react, in Dafny

The program is a single React page that shows an 80 x 80 board on a canvas.
The board is a torus, so it has no edges. You can click cells to flip them, step
the board once, run it on a timer, and reset it. The engine behind the page is
modelled and verified here:

- the board geometry (`WIDTH / CELL_SIZE` by `HEIGHT / CELL_SIZE`, that is 80 x 80);
- `createBoard` and `resetBoard`;
- `countNbors`, which counts live Moore neighbours with toroidal wraparound;
- the two generation steps: Conway's B3/S23 (`computeNextBoardGol`) and
  Seeds B2/S (`computeNextBoardSeeds`);
- the cell toggle in the canvas click handler.

The code is imperative, and so is the model. A board is an `array2<int>`.
`CreateBoard` allocates it. `CountNbors` counts with the same nested `dr`/`dc`
loops as the source, and with JavaScript's truncating `%` (`JsRem`). `StepGol`
and `StepSeeds` copy the previous board, then overwrite cells in nested `r`/`c`
loops. `GridStore` holds the page's `boardState`. Its methods do what the page
does to that state: `Reset`, `Toggle` (an in-place write of one cell), and
`NextSeeds`/`NextGol`, which replace the board.

Each method is proved against a specification over values. A `Grid` is a
`seq<seq<int>>` snapshot of a board, that is, one generation. The
specifications are:

- `Nbors(g, r, c)`: the live cells among the eight cells that `countNbors`
  visits;
- `GolStep(g)` and `SeedsStep(g)`: the next generation, where each cell depends
  only on the old cell and its count in `g`;
- `Toggled(g, x, y)`: the board after a click;
- `EmptyGrid()`: the board with every cell dead.

The specification functions have their own lemmas. `Nbors` equals the number of
live cells adjacent to the centre on the torus. That set is defined
independently, through ring distance. The eight cells visited are distinct and
in bounds, and the centre is not one of them. The rules match B3/S23 and B2/S
on binary boards. Both steps keep a board binary, and an all-dead board is a
fixed point of both. A lone live cell dies under Conway, and a 2 x 2 block is a
Conway still life, also where it wraps round an edge. A click changes only the
clicked cell, and clicking the same cell twice gives back the original board.

One design decision: in the source, `countNbors` reads the component's
`boardState` closure (app/page.tsx:70), not the `prevBoardState` that the step's
updater receives (app/page.tsx:80, 102). The model counts on the previous board
passed to the step. The code intends this, and does it whenever the closure is
current. The step methods show that counting never reads the board being
written: `CountNbors` takes the previous board, and the step's result is tied
to `GolStep`/`SeedsStep` of the previous board's snapshot.

Files: `board.dfy` (module `Board`), `neighbourhood.dfy` (`Neighbourhood`),
`rules.dfy` (`Rules`), `store.dfy` (`Store`), `patterns.dfy` (`Patterns`).

## Model

| member | source | states |
|---|---|---|
| Board.EmptyGrid | app/page.tsx:14-16 | the created board has NUM_ROWS rows each of length NUM_ROWS, which is also NUM_COLS, and every cell is 0 |
| Board.CreateBoard | app/page.tsx:14-16 | returns a fresh NUM_ROWS x NUM_ROWS array whose contents are the empty grid |
| Board.CopyBoard | app/page.tsx:81 | the row-by-row copy that starts each step (this line for Conway, and the identical line 103 for Seeds) is a fresh array with the same dimensions and cells as the previous board |
| Board.Flip | app/page.tsx:157-161 | the written value is always 0 or 1, and for a 0/1 cell it is the other state |
| Board.Toggled | app/page.tsx:156-162 | after a click on (x, y), cell (x, y) holds the flipped value and every other cell is unchanged |
| Board.ToggleIsInvolution | app/page.tsx:156-162 | on a binary board the clicked cell changes, the board stays binary and of the same size, and a second click restores the board |
| Neighbourhood.JsRem | app/page.tsx:67-68 | JavaScript's remainder lies in 0..n-1 for a non-negative dividend and in -(n-1)..0 for a negative one |
| Neighbourhood.WrapIndex | app/page.tsx:67-68 | for an in-range index, (i + d + n) % n is in bounds; it is i + d, or wraps to n - 1 below the first row and to 0 past the last |
| Neighbourhood.OffsetsAreLoopOrder | app/page.tsx:64-66 | `Offsets` lists the eight (dr, dc) steps in -1..1 other than (0, 0), in the row-major order of the two loops, each at the position `OffsetIndex` gives it |
| Neighbourhood.Neighbour | app/page.tsx:64-68 | each cell countNbors visits is in bounds |
| Neighbourhood.CountFirst | app/page.tsx:62-77 | the live count over the first k visited cells is at most k |
| Neighbourhood.Nbors | app/page.tsx:62-77 | a neighbour count is between 0 and 8 |
| Neighbourhood.NeighbourAt | app/page.tsx:64-68 | the cell indexed at loop position (dr, dc) is the next cell in visiting order, and the centre (0, 0) is skipped |
| Neighbourhood.CountAdvance | app/page.tsx:65-73 | each non-centre step of the loops moves one place along the visiting order and adds 1 exactly when the wrapped cell read there is live |
| Neighbourhood.CountNbors | app/page.tsx:62-77 | the nested loops return exactly Nbors of the board they read |
| Neighbourhood.RingNear | app/page.tsx:67-68 | on a ring of at least three, the indices at distance at most one from a are a and its two wrapped steps |
| Neighbourhood.NeighbourListed | app/page.tsx:64-68 | the k-th visited cell takes its row from the wrapped r0-1, r0, r0+1 and its column from the wrapped c0-1, c0, c0+1, by the k-th (dr, dc) |
| Neighbourhood.NeighboursDistinct | app/page.tsx:64-68 | the eight visited cells are pairwise distinct |
| Neighbourhood.NeighbourIsAdjacent | app/page.tsx:64-68 | every visited cell is a toroidal Moore neighbour of the centre |
| Neighbourhood.AdjacentIsNeighbour | app/page.tsx:64-68 | every in-bounds toroidal Moore neighbour of the centre is one of the visited cells |
| Neighbourhood.LiveFirstStep | app/page.tsx:70-72 | each visited cell adds itself to the live set when live, and is not already in it |
| Neighbourhood.CountFirstIsCard | app/page.tsx:69-73 | the running count equals the number of distinct live cells visited so far |
| Neighbourhood.NborsCountsLiveNeighbours | app/page.tsx:62-77 | countNbors equals the number of live cells adjacent to the centre on the torus, and the centre is never one of the eight cells visited |
| Neighbourhood.NborsIgnoresCentre | app/page.tsx:66 | changing only the centre cell never changes its count |
| Neighbourhood.CornerWrapsAround | app/page.tsx:67-68 | the neighbourhood of (0, 0) includes (NUM_ROWS-1, NUM_COLS-1), (NUM_ROWS-1, 0) and (0, NUM_COLS-1) |
| Neighbourhood.NborsOfAllDead | app/page.tsx:62-77 | on an all-dead board every count is 0 |
| Rules.GolCell | app/page.tsx:86-94 | the Conway decision for one cell: on a 0/1 cell the result is 0 or 1, and it is 1 exactly for a 0 with count 3 or a 1 with count 2 or 3; any cell with count at most one becomes 0; its use on every cell is `GolStepIsB3S23` and `SparseBoardDies` |
| Rules.SeedsCell | app/page.tsx:108-114 | the Seeds decision for one cell: the result is always 0 or 1, and it is 1 exactly for a 0 with count 2; its use on every cell is `SeedsStepIsB2S` |
| Rules.GolStep | app/page.tsx:79-99 | the Conway generation has the same dimensions as the previous one |
| Rules.SeedsStep | app/page.tsx:101-119 | the Seeds generation has the same dimensions as the previous one |
| Rules.GolStepIsB3S23 | app/page.tsx:83-96 | on a binary board a cell is 1 exactly when it was 0 with count 3 or 1 with count 2 or 3, and 0 otherwise |
| Rules.SeedsStepIsB2S | app/page.tsx:105-116 | on a binary board a cell is 1 exactly when it was 0 with count 2; every live cell becomes 0 whatever its count |
| Rules.StepsPreserveBinary | app/page.tsx:83-116 | both steps map a board of 0s and 1s to a board of 0s and 1s |
| Rules.AllDeadIsFixedPoint | app/page.tsx:83-116 | an all-dead board is unchanged by either step |
| Rules.SparseBoardDies | app/page.tsx:90-94 | if no cell has more than one live neighbour, every cell is 0 after a Conway step |
| Rules.CellsKeptIsStillLife | app/page.tsx:81-97 | a board on which the Conway decision keeps every cell's value is unchanged by the step |
| Rules.StepGol | app/page.tsx:79-99 | returns a fresh board equal to GolStep of the previous board; the previous board is not modified |
| Rules.StepSeeds | app/page.tsx:101-119 | returns a fresh board equal to SeedsStep of the previous board; the previous board is not modified |
| Store.GridStore.constructor | app/page.tsx:18-19 | the initial state is a fresh empty board of the program's size |
| Store.GridStore.Reset | app/page.tsx:121-124 | the board is replaced by a fresh empty board, and the old board is left as it was |
| Store.GridStore.Toggle | app/page.tsx:152-163 | the board is updated in place to Toggled of its old value, it stays binary, and the array is the same one |
| Store.GridStore.NextSeeds | app/page.tsx:101-119 | the board is replaced by a fresh array holding SeedsStep of the old value; the old array is untouched; the store stays valid |
| Store.GridStore.NextGol | app/page.tsx:79-99 | the board is replaced by a fresh array holding GolStep of the old value; the old array is untouched; the store stays valid |
| Patterns.LiveNeighboursOf | app/page.tsx:62-77 | on a board whose live cells are exactly a set s, a cell's live neighbours are the members of s adjacent to it |
| Patterns.LoneCellNbors | app/page.tsx:85 | with a single live cell on the board, every cell's count is at most one |
| Patterns.LoneCellDies | app/page.tsx:90-94 | a board with one live cell, anywhere, is all dead after a Conway step |
| Patterns.BlockCellNeighbours | app/page.tsx:85 | each cell of a 2 x 2 block has exactly three live neighbours |
| Patterns.OutsideBlockNeighbours | app/page.tsx:85 | a cell outside a 2 x 2 block has at most two live neighbours |
| Patterns.BlockCellFate | app/page.tsx:85-94 | with a 2 x 2 block on the board, the Conway decision keeps every cell's value |
| Patterns.BlockIsStillLife | app/page.tsx:83-96 | a 2 x 2 block, wrapping at edges allowed, is unchanged by a Conway step |

## Left out

- Canvas rendering (app/page.tsx:31-60): drawing glue over the 2D context, with floating-point pixel scaling.
- The play loop (app/page.tsx:20, 23-29, 146-148): `setInterval`/`clearInterval`, the `isPlaying` flag and the React effect lifecycle. These are timer scheduling, not engine logic.
- React state plumbing: `useState` and the functional `setBoardState` updater. A step is modelled as previous board to new board, and the store's methods replace its board field.
- Click-to-cell mapping (`Math.floor(offsetX / CELL_SIZE)`, app/page.tsx:153-154): this is DOM event geometry. `GridStore.Toggle` requires 0 <= x < NUM_ROWS and 0 <= y < NUM_COLS instead, which excludes both out-of-range cases of the source. An out-of-range x leaves `updatedBoardState[x]` undefined, so the test at line 157 throws. An out-of-range y with an in-range x does not throw. `row[y] === 0` is false, so line 160 writes a 0 at `row[y]`: for y = NUM_COLS this lengthens row x by one, and for a negative y it adds a non-index property to the row.
- The JSX layout and the buttons (app/page.tsx:126-171). The "Next" button and the timer are both wired to the Seeds step. Conway is reachable in the model only through `GridStore.NextGol`.
- Aliasing of the React snapshot in the click handler. `[...boardState]` copies only the outer array, so the row the click writes is shared with the previous state. The model writes the store's board in place and does not model other holders of the old rows.
- countNbors reading the component closure `boardState` instead of the step's `prevBoardState`. The model counts on the previous board, as explained above. A stale closure is not modelled.
- Boards of other shapes. The steps and `CountNbors` require a NUM_ROWS x NUM_COLS board. Every board made by `createBoard` and the two steps has that shape, and so does a board after in-range clicks. A click with an out-of-range y can lengthen one row, as described above, and the model does not reach such a board. Ragged or differently sized arrays and the steps' behaviour on them are not modelled.
- JavaScript numbers are doubles. Cells hold only 0 and 1 and counts stay within 0..8, so they are modelled as mathematical integers. No rounding can occur.
