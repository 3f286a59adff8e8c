# cdoku in Dafny: a Sudoku solver built on dancing links

cdoku reads a Sudoku board and turns it into an exact-cover matrix. It
solves that matrix with Knuth's Algorithm X on a dancing-links torus,
then writes the rows of the solution back onto the board. This project
models the core of `main.c` and proves properties of the model:

- the board accessors `board_get` and `board_set`;
- the reduction `matrix_create`, with `node_create` and `link_nodes`;
- the torus operations `cover_column`, `uncover_column` and
  `choose_min_length_column`;
- the search `dlx_solve_impl` and `dlx_solve`;
- the loop in `main` that decodes the solution's row ids onto the board.

The board has cell size k (the side of a box), line size N = k² and N²
cells. A possibility row id is `r·N² + c·N + d`. It stands for placing
digit d+1 at board row r and board column c. The 4N² constraint columns
come in four families of N² each:

- cell `r·N + c`;
- row-digit `N² + r·N + d`;
- column-digit `2N² + c·N + d`;
- box-digit `3N² + (k·(r/k) + c/k)·N + d`.

The nodes live in an arena. Node 0 is the root. Nodes 1..4N² are the
column headers; header h is constraint h-1. Every later group of four
consecutive nodes is one possibility row, in the order cell, row-digit,
column-digit, box-digit. A node's links are entries of the
`left`/`right`/`up`/`down` sequences, NULL is -1, and the parent header,
row or column id and count are further sequences.

Modules, in dependency order:

- `Layout` (layout.dfy): decoding and encoding of row ids, and the
  constraint indices, in the reduction's own formulas.
- `SudokuBoard` (board.dfy): the board as a class over an array. It holds
  `board_get`, `board_set`, the 32-bit index arithmetic, and which rows
  the reduction keeps.
- `Links` (links.dfy): circular doubly linked lists over an arena axis.
  It holds splicing out and back in, and appending at the tail.
- `TorusSpec` (torus_spec.dfy): the torus as values, and the invariant
  `WellFormed`. The invariant is stated against two ghost views: the
  live headers in ring order, and each header's vertical list. This
  module also holds cover and uncover as functions, exact covers, and
  the first minimum of a sequence.
- `BuildLaws` (build_laws.dfy) and `Build` (build.dfy): `matrix_create`
  over the `Nodes.Arena` class (nodes.dfy), which holds `node_create`
  and `link_nodes`, and what the finished matrix is.
- `CoverLaws` (cover_laws.dfy) and `Dlx` (dlx.dfy): the `Matrix` class,
  with `cover_column`, `uncover_column`, `choose_min_length_column` and
  the search.
- `Solution` (solution.dfy): the decode loop of `main`, and the theorem
  that a successful search fills the board as a completed Sudoku grid
  keeping the givens.

## Model

| member | source | states |
|---|---|---|
| Layout.EncodeDecode | main.c:312-314 | Re-encoding the decoded row, column and digit of any row id gives the id back; row / N is the cell number r·N + c. |
| Layout.DecodeEncode | main.c:312-314 | Decoding `r·N² + c·N + d` with r, c, d < N gives back r, c and d, and the id is below N³. |
| Layout.DecodeRanges | main.c:307-314 | Row index, column index and digit offset of a row id below N³ are each below N. |
| Layout.ConstraintRange | main.c:279-280 | The f-th constraint index of a row below N³ lies in the f-th block `[f·N², (f+1)·N²)`, so all four are below 4N². |
| Layout.BoxRange | main.c:333 | The box number `k·(r/k) + c/k` of a cell on the board is below N. |
| SudokuBoard.IndexOnBoard | main.c:43 | For i, j < N the `unsigned int` index `i + j·line_size` does not wrap: it is i + j·N < N². |
| SudokuBoard.IndexInjective | main.c:42-58 | Two cells of the board never share a flat index. |
| SudokuBoard.GridFits | main.c:305-307 | N² is at most N³, and both fit an `unsigned int`. |
| SudokuBoard.RowCell | main.c:312-321 | The cell and digit a row id below N³ names are on the board, so the `board_get` arguments fit an `unsigned int`. |
| SudokuBoard.PossibleOffsets | main.c:321-323 | An empty cell allows every digit. A cell holding v in 1..N allows exactly offset v-1. A value above N allows none. |
| SudokuBoard.KeptSpec | main.c:311-323 | The kept rows below hi are exactly the rows whose digit the cell allows, in strictly increasing order. |
| SudokuBoard.Board.Get | main.c:42-50 | Returns 0 with no board or an index at or past `board_size`; otherwise the cell at index `i + j·line_size`. |
| SudokuBoard.Board.Set | main.c:52-58 | Stores the value at index `i + j·line_size` when there is a board and the index is in range, else changes nothing. Every cell at another index keeps its value. |
| Links.SpliceInverse | main.c:431-432 | Splicing a linked node back in after splicing it out restores both link arrays exactly. |
| Links.SpliceOutCircular | main.c:423-424 | Cutting an element out of a circular list leaves a circular list without it. |
| Links.CutCircular | main.c:423-424 | The two link writes that cut a header out of the ring close the ring around the gap. |
| Links.AppendAt | main.c:348-357 | Hanging a new node below the bottom of a circular list and linking it up to the anchor gives that list extended by the node. |
| TorusSpec.StepCycle | main.c:360-363 | A row of four nodes is a cycle: zero or four steps right come back to the node, and one to three steps do not. |
| TorusSpec.MinimumUnique | main.c:406-418 | A sequence has only one first strict minimum. |
| BuildLaws.ChainCircular | main.c:287-300 | The chain from the root through headers 1..m, closed from m back to the root, is the circular ring [0, 1, …, m]. |
| BuildLaws.EmptyWellFormed | main.c:287-300 | The root and the headers, each alone in its vertical ring with count 0, form a well-formed torus with every column empty. |
| BuildLaws.TargetsHeaders | main.c:330-333 | The four header nodes of a row are four different headers, one in each family's block of N² columns. |
| BuildLaws.NodesAt | main.c:336-339 | Node f of the i-th kept row has that row's f-th constraint header as parent and that row's id. |
| BuildLaws.NodesSnoc | main.c:336-339 | Adding a row appends its four parents and four copies of its id. |
| BuildLaws.ColumnListsGrow | main.c:348-357 | After a row is added, each column lists its old nodes followed by the row's node, if the row has one there. |
| BuildLaws.GrowWellFormed | main.c:342-363 | Adding a row whose four headers are live keeps the torus well formed. |
| Nodes.Arena.NodeCreate | main.c:211-234 | Appends a node with four NULL links. A data node gets its parent and row id; a header gets its id, a NULL parent and count 0. |
| Nodes.Arena.LinkNodes | main.c:247-254 | Does nothing if either node is NULL. Otherwise, for each mask bit in the order LEFT, RIGHT, UP, DOWN, it makes b a's neighbour on that side and a b's neighbour on the opposite side. |
| Nodes.Arena.CreateRow | main.c:336-339 | Four new data nodes at the end of the arena, with parents cs and the row's id. |
| Nodes.Arena.CountRow | main.c:342-345 | Increments the count of each of the four headers. |
| Nodes.Arena.HangBelow | main.c:348-351 | The bottom node of each column points down at the new node, and the new node points up at it. |
| Nodes.Arena.HangAbove | main.c:354-357 | Each header points up at its new node, and the node points down at the header. |
| Nodes.Arena.LinkAcross | main.c:360-363 | Links the four new nodes right and left in a cycle: cell, row, column, box, and back to cell. |
| Nodes.Arena.LinkRow | main.c:348-363 | The twelve `link_nodes` calls of a row, stated as whole link arrays. |
| Nodes.Arena.AddRow | main.c:336-363 | One kept row's nodes, counts and links give the torus grown by that row (`GrowSnap`). |
| Nodes.RowEffect | main.c:342-363 | The arrays AddRow leaves are those of `GrowSnap`. |
| Build.CreateHeaders | main.c:266-300 | Creates the root and 4N² headers with ids 0..4N²-1. They are chained right in order and closed into a ring; each header is alone in its vertical ring. The result is a well-formed empty torus. |
| Build.AddHeader | main.c:288-299 | One header-loop pass: the new header is alone in its vertical ring, and is chained right of the previous one. |
| Build.ChainClosed | main.c:300 | Linking the last header right to the root closes the chain into the root's circular ring. |
| Build.Allows | main.c:312-323 | The skip test is decided from the value `board_get` returns for the row's cell: a row is kept exactly when the cell is 0 or holds digit d+1. |
| Build.RowConstraints | main.c:312-333 | The four constraints-array lookups give the headers of the cell, row-digit, column-digit and box-digit constraints, as `Targets`. |
| Build.HoldsGrow | main.c:311-364 | A kept row appended to a built arena gives the arena built from the rows so far plus that row. |
| Build.AppendRow | main.c:326-363 | A kept row's nodes extend the built arena by that row. |
| Build.Possibility | main.c:311-364 | One pass of the row loop extends the built arena to the kept rows below row + 1. |
| Build.AddRows | main.c:305-364 | After the row loop, the arena is built from exactly the kept possibility rows below N³, in increasing order. |
| Build.MatrixCreate | main.c:257-369 | Returns a fresh arena whose nodes hold the headers and exactly the kept rows, with parents and ids as laid out. Its links form a well-formed torus: the ring holds all headers in order, and each column lists its nodes top to bottom with count equal to their number. |
| Build.TargetsDistinct | main.c:330-333 | The four constraints of a row are four different headers. |
| Build.RowOrder | main.c:311-357 | Two data nodes under the same header, the first added first, have strictly increasing row ids. |
| Build.ColumnsInRowOrder | main.c:348-357 | Every column of an arena whose same-column pairs are ordered lists its nodes in strictly increasing row-id order. |
| Build.BuiltInRowOrder | main.c:311-363 | In the matrix built from a board, every column lists its nodes top to bottom in strictly increasing order of row id. |
| CoverLaws.CutRing | main.c:423-424 | Cutting c out of the root's ring leaves a ring of the other live headers, and no data node's row links change. |
| CoverLaws.CoverView | main.c:427-436 | While cover works through the rows, c's own vertical list stays circular and unchanged. |
| CoverLaws.CoverLive | main.c:420-438 | After cover, every row still hanging in a live column hangs, whole, in live columns. |
| CoverLaws.CoverWellFormed | main.c:420-438 | Covering c keeps the torus well formed. The ring loses c, and every vertical list loses the other nodes of c's rows. |
| CoverLaws.UnlinkRelink | main.c:431-434 | Relinking a node right after unlinking it restores its column links and its header's count. |
| CoverLaws.RestoreRemove | main.c:443-452 | Relinking nodes last to first, right after unlinking them first to last, restores the state. |
| CoverLaws.CoverUncover | main.c:420-457 | `uncover_column(c)` right after `cover_column(c)` restores every link and every count exactly. |
| CoverLaws.RingEmpty | main.c:489-492 | The root's right link points at the root exactly when no column is live; otherwise it points at the first live header. |
| CoverLaws.ExactCoverCons | main.c:500-515 | A row whose columns are live, followed by an exact cover of the columns it leaves, is an exact cover of the live columns. |
| CoverLaws.SolvedByRow | main.c:503-524 | When the recursion below a pushed row succeeds, the solution so far, plus the row, plus the rest covers every column live before the row's columns were covered. |
| Dlx.Matrix.constructor | main.c:257-369 | The unsolved matrix of the board. Its columns are the 4N² constraints, all live in id order. Its rows are exactly the kept possibility rows, laid out as matrix_create lays them. The torus is well formed, and every column is in increasing row-id order. |
| Dlx.Matrix.CoverColumn | main.c:420-438 | The new state is `CoverSnap` of the old one: the ring loses c, and each vertical list loses the other nodes of c's rows. The invariant is kept. |
| Dlx.Matrix.UnlinkRows | main.c:427-436 | The outer loop of cover unlinks, row by row from the top, every other node of each of c's rows. |
| Dlx.Matrix.UnlinkRow | main.c:429-435 | The inner loop of cover unlinks the three other nodes of one row, walking right. |
| Dlx.Matrix.UnlinkNode | main.c:431-434 | Unlinks one node from its column and decrements its header's count. |
| Dlx.Matrix.RelinkNode | main.c:446-450 | Increments the header's count and relinks the node into its column. |
| Dlx.Matrix.UncoverColumn | main.c:440-457 | Right after the matching cover, gives back the exact state, ring and vertical lists from before the cover. |
| Dlx.Matrix.RelinkRows | main.c:443-452 | The outer loop of uncover relinks the rows bottom to top, undoing UnlinkRows. |
| Dlx.Matrix.RelinkRow | main.c:445-451 | The inner loop of uncover relinks the three other nodes of one row, walking left. |
| Dlx.Matrix.ChooseMinLengthColumn | main.c:406-418 | Returns NULL when no column is live; otherwise the first live header, in ring order, whose count is strictly smallest (corrected bound, see Findings). |
| Dlx.Matrix.ChooseMinLengthColumnAsWritten | main.c:406-418 | With the initial bound 511: returns NULL exactly when every live count is at least 511; otherwise the first strict minimum. |
| Dlx.Matrix.ChooseBoundMisses | main.c:406-418 | When every live count reaches 511, the scan as written returns NULL while a live header exists, and the corrected scan returns one. |
| Dlx.Matrix.ChooseBoundAgrees | main.c:406-418 | When some live count is below 511, both scans pick the same header. |
| Dlx.Matrix.CoverChosen | main.c:494-497 | Covering the chosen column: c leaves the ring, its own list stays, and each of its rows had all four headers live before the cover. |
| Dlx.Matrix.CoverRowColumns | main.c:510-513 | Covers the three other columns of the row, walking right. The ring loses exactly the row's columns, and the recorded states chain one cover each. |
| Dlx.Matrix.CoverMate | main.c:510-513 | One pass of that loop: covers the next node's column, and the ring loses exactly that header. |
| Dlx.Matrix.UncoverRowColumns | main.c:526-529 | Uncovers the row's other columns walking left, restoring the state, ring and lists from before CoverRowColumns. |
| Dlx.Matrix.UncoverMate | main.c:526-529 | One pass of that loop: undoes one recorded cover. |
| Dlx.Matrix.TryRow | main.c:501-529 | One row-loop pass: push while unsolved, cover, recurse, set solved on success, pop while unsolved, uncover. The state is restored, and a new success leaves an exact cover of the columns live on entry after the old prefix. |
| Dlx.Matrix.TryRows | main.c:500-530 | The row loop over the covered column, with no early exit. The state is restored; the solution changes only by a new success, which extends it with an exact cover. |
| Dlx.Matrix.Search | main.c:484-536 | Returns true when the ring is empty or the matrix is solved. The links, counts, ring and lists come back as on entry. Solved stays solved. On false the solution is unchanged. A new success appends an exact cover of the columns live on entry. |
| Dlx.Matrix.Solve | main.c:538-540 | Same as Search, from an empty solution: on success from an unsolved matrix, the solution is an exact cover of all live columns; on failure it is empty. |
| Solution.CellOfRow | main.c:582-586 | The decode loop's board_set index for a row id below N³ is cell row / N of the board. |
| Solution.PlacedCells | main.c:579-587 | Storing rows in different cells puts digit `row % N + 1` in each row's cell and leaves every other cell as it was. |
| Solution.FillBoard | main.c:579-587 | The board afterwards holds the cells as they were, with each solution node's row id, cut to `unsigned int`, decoded and stored in turn. |
| Solution.ApartByTargets | main.c:330-333 | Rows whose four constraints are pairwise different do not share a cell, and never put the same digit twice in one board row, board column or box. |
| Solution.CellHeader | main.c:330 | A row's constraint whose header is in the first block is its cell constraint, naming the row's cell. |
| Solution.NodeRow | main.c:336-363 | Every data node of the built matrix belongs to a kept row. Its row id is that row, and its row's headers are that row's four constraints. |
| Solution.CoverTargets | main.c:257-369 | An exact cover of the built matrix, read as row ids, is a set of kept rows meeting every one of the 4N² constraints exactly once. |
| Solution.TargetsSolve | main.c:279-333 | Such a set of rows fills every cell, and any two of its rows are apart. |
| Solution.CoverSolves | main.c:257-369 | An exact cover of the built matrix's columns solves the board. |
| Solution.CellSource | main.c:579-587 | For a solving set of rows, each cell is filled by one row, whose digit the cell ends up holding and which agrees with the cell's given. |
| Solution.CellsApart | main.c:579-587 | In the filled grid, two cells sharing a board row, board column or box hold different digits. |
| Solution.SolutionFillsGrid | main.c:579-587 | Storing a solving set of rows fills the board as a completed Sudoku grid that keeps every given. |
| Solution.CoverFillsGrid | main.c:564-587 | An exact cover of the built matrix, decoded onto the board, is a completed grid keeping the givens. |
| Solution.SolveBoard | main.c:564-587 | Builds the matrix, runs the search and, on success, fills the board. Success means the board is a completed Sudoku grid keeping every given; failure leaves the board unchanged. |

## Left out

- Reading the board (`try_read_board`, `board_try_resize`) is left out; it is file input. The board is a parameter. Its dimensions are the reader's, `line_size = cell_size²` and `grid_size = line_size²`, taken as the precondition `Board.Sized`.
- `Layout.Dims` takes N³ to fit an `unsigned int`, so that no index arithmetic wraps. `BOARD_MAX_CELL_SIZE` is never enforced by the reader, so the model does not rely on it.
- Printing (`board_print`, `matrix_print`, `step_print`), argv handling, `fopen` and the error messages of `main` are left out; they are output only.
- `malloc`, `realloc` and `free`, `node_free` and `matrix_free` are left out. Nodes live in an arena and never fail to be allocated, and the solution array is a sequence of node indices.
- `main` reads the row ids of the solution nodes after `matrix_free` has freed them (main.c:576-580). `Solution.SolveBoard` reads them from the live matrix, that is, what the code evidently means to read.
- The `DLX_TESTING` and `DEBUG_STEP_PRINT` configurations are left out; both are switched off.
- Dlx.Matrix.Search: only soundness is proved. A false result is not proved to mean that no exact cover exists.
- Solution.SolveBoard: for the same reason, failure is not proved to mean that the board has no solution.
- SudokuBoard.Board: `CELL` is `unsigned long`; cells are modelled as unbounded naturals. No value the model stores comes near 2⁶⁴.

## Findings

| source | as written | input that shows it | evidently intended | confidence | as-written member | corrected member |
|---|---|---|---|---|---|---|
| main.c:407 | `choose_min_length_column` starts from `(2 << sizeof(size_t)) - 1`, which is 511 with an 8-byte `size_t`. It returns NULL whenever every live column holds 511 or more rows. `dlx_solve_impl` then dereferences that NULL at main.c:495-497. | An empty board with cell size 23 (N = 529). Each of its first-row lines fits the reader's 4096-byte buffer. Every column starts with 529 rows, so the first call gets NULL back with 2116 live columns. | Start from no candidate (or the largest `size_t`), so that the first live column with the fewest rows is chosen whatever the counts. | high, not executed | Dlx.Matrix.ChooseMinLengthColumnAsWritten, Dlx.Matrix.ChooseBoundMisses | Dlx.Matrix.ChooseMinLengthColumn |
