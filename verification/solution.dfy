/** Reading the solution back onto the board, as main does once
    dlx_solve has succeeded, and what the filled board then is: a
    completed Sudoku grid that keeps every given. */
module Solution {
  import opened Layout
  import opened SudokuBoard
  import opened TorusSpec
  import opened BuildLaws
  import opened Build
  import opened Dlx

  // ---------------------------------------------------------------------
  // Decoding one possibility row onto the board

  /** The cell a row id below N³ names is cell row / N of the board, at
      board row RowIndex and board column ColIndex. */
  lemma CellOfRow(row: nat, k: nat, n: nat)
    requires Dims(k, n) && row < Cube(n)
    ensures 0 <= row / n && Index(ColIndex(row, n), RowIndex(row, n), n) == row / n < n * n
    ensures (row / n) / n == RowIndex(row, n) && (row / n) % n == ColIndex(row, n)
  {
    GridFits(k, n);
    DecodeRanges(row, n);
    EncodeDecode(row, n);
    IndexOnBoard(ColIndex(row, n), RowIndex(row, n), n);
    DivModUnique(row / n, n, RowIndex(row, n), ColIndex(row, n));
  }

  /** One turn of main's solution loop on cells `cs`: the row id is cut to
      an `unsigned int`, decoded into board row, board column and digit,
      and the digit is stored by board_set. */
  function Put(cs: seq<nat>, n: nat, id: int): (cs': seq<nat>)
    requires n > 0
    ensures |cs'| == |cs|
  {
    var rowId := id % Uint32Modulus;
    var idx := Index(ColIndex(rowId, n), RowIndex(rowId, n), n);
    if idx < |cs| then cs[idx := Offset(rowId, n) + 1] else cs
  }

  /** The cells after main's loop has stored the rows ids, in order. */
  function Placed(cs: seq<nat>, n: nat, ids: seq<int>): (cs': seq<nat>)
    requires n > 0
    ensures |cs'| == |cs|
  {
    if ids == [] then cs else Put(Placed(cs, n, ids[..|ids| - 1]), n, ids[|ids| - 1])
  }

  /** The row ids of the solution's nodes. */
  function RowIdsOf(id: seq<int>, sol: seq<int>): (ids: seq<int>)
    requires forall i :: 0 <= i < |sol| ==> 0 <= sol[i] < |id|
    ensures |ids| == |sol|
  {
    seq(|sol|, i requires 0 <= i < |sol| => id[sol[i]])
  }

  /** Rows in different cells: each stores its digit in its own cell, and
      the cells no row names keep their value. */
  lemma {:induction false} PlacedCells(cs: seq<nat>, k: nat, n: nat, rs: seq<int>)
    requires Dims(k, n) && |cs| == n * n
    requires forall i :: 0 <= i < |rs| ==> 0 <= rs[i] < Cube(n)
    requires forall i, j :: 0 <= i < j < |rs| ==> rs[i] / n != rs[j] / n
    ensures forall i :: 0 <= i < |rs| ==> 0 <= rs[i] / n < n * n && Placed(cs, n, rs)[rs[i] / n] == rs[i] % n + 1
    ensures forall c :: 0 <= c < n * n && (forall i :: 0 <= i < |rs| ==> rs[i] / n != c) ==> Placed(cs, n, rs)[c] == cs[c]
  {
    if rs != [] {
      var m := |rs| - 1;
      var init, last := rs[..m], rs[m];
      PlacedCells(cs, k, n, init);
      var P := Placed(cs, n, init);
      assert Placed(cs, n, rs) == Put(P, n, last);
      assert last % Uint32Modulus == last;
      CellOfRow(last, k, n);
      assert Placed(cs, n, rs) == P[last / n := last % n + 1];
      forall i | 0 <= i < |rs|
        ensures 0 <= rs[i] / n < n * n && Placed(cs, n, rs)[rs[i] / n] == rs[i] % n + 1
      {
        CellOfRow(rs[i], k, n);
        if i < m {
          assert init[i] == rs[i];
        }
      }
      forall c | 0 <= c < n * n && (forall i :: 0 <= i < |rs| ==> rs[i] / n != c)
        ensures Placed(cs, n, rs)[c] == cs[c]
      {
        assert forall i :: 0 <= i < |init| ==> init[i] == rs[i];
      }
    }
  }

  /** main's loop over the solution: for each node, take its row id, cut
      to an `unsigned int`, and store digit offset + 1 at the cell the id
      names. */
  method FillBoard(b: Board, m: Matrix, solution: seq<int>)
    requires b.Valid() && b.Sized()
    requires forall i :: 0 <= i < |solution| ==> 0 <= solution[i] < |m.id|
    modifies b.cells
    ensures b.Valid()
    ensures b.Contents() == Placed(old(b.Contents()), b.lineSize, RowIdsOf(m.id, solution))
  {
    ghost var ids := RowIdsOf(m.id, solution);
    ghost var cs := b.Contents();
    for i := 0 to |solution|
      invariant b.Valid() && b.Contents() == Placed(cs, b.lineSize, ids[..i])
    {
      var rowId := m.id[solution[i]] % Uint32Modulus;
      var rowIdx := rowId / b.gridSize;
      var colIdx := (rowId / b.lineSize) % b.lineSize;
      var offset := rowId % b.lineSize + 1;
      MulGe(b.gridSize, Uint32Modulus);
      DivBelow(rowId, b.gridSize, Uint32Modulus);
      GridFits(b.cellSize, b.lineSize);
      b.Set(colIdx, rowIdx, offset);
      assert ids[..i + 1][..i] == ids[..i];
    }
    assert ids[..|solution|] == ids;
  }

  // ---------------------------------------------------------------------
  // What an exact cover of the reduction is on the board

  /** Two possibility rows that may both be part of a solution: they fill
      different cells, and no board row, board column or box gets the same
      digit from both. */
  predicate Apart(k: nat, n: nat, a: int, b: int)
    requires Dims(k, n) && 0 <= a && 0 <= b
  {
    a / n != b / n &&
    (RowIndex(a, n) == RowIndex(b, n) ==> Offset(a, n) != Offset(b, n)) &&
    (ColIndex(a, n) == ColIndex(b, n) ==> Offset(a, n) != Offset(b, n)) &&
    (Box(RowIndex(a, n), ColIndex(a, n), k) == Box(RowIndex(b, n), ColIndex(b, n), k) ==> Offset(a, n) != Offset(b, n))
  }

  /** The row ids rs solve the board whose cells are `givens`: each is a
      row the board allows, every cell is filled by one of them, and any
      two are apart. */
  ghost predicate SolvedBy(givens: seq<nat>, k: nat, n: nat, rs: seq<int>) {
    Dims(k, n) &&
    (forall i :: 0 <= i < |rs| ==> 0 <= rs[i] < Cube(n) && Keeps(givens, n, rs[i])) &&
    (forall c :: 0 <= c < n * n ==> Filled(n, rs, c)) &&
    (forall i, j :: 0 <= i < j < |rs| ==> Apart(k, n, rs[i], rs[j]))
  }

  /** Some row of rs fills cell c. */
  ghost predicate Filled(n: nat, rs: seq<int>, c: int)
    requires n > 0
  {
    exists i :: 0 <= i < |rs| && rs[i] / n == c
  }

  /** Rows whose four constraints are pairwise different headers are
      apart. */
  lemma ApartByTargets(k: nat, n: nat, a: nat, b: nat)
    requires Dims(k, n)
    requires forall f :: 0 <= f < 4 ==> Targets(a, k, n)[f] != Targets(b, k, n)[f]
    ensures Apart(k, n, a, b)
  {
    assert Targets(a, k, n)[0] != Targets(b, k, n)[0];
    assert Targets(a, k, n)[1] != Targets(b, k, n)[1];
    assert Targets(a, k, n)[2] != Targets(b, k, n)[2];
    assert Targets(a, k, n)[3] != Targets(b, k, n)[3];
  }

  /** A data node of the matrix built from increasing rows lies in the
      row of one of them: its row id is that row, and its row's headers
      are that row's four constraints. */
  lemma {:induction false} NodeRow(parent: seq<int>, id: seq<int>, k: nat, n: nat, rows: seq<nat>, x: int)
    requires Dims(k, n)
    requires parent == seq(4 * (n * n) + 1, _ => Null) + Parents(rows, k, n)
    requires id == [0] + seq(4 * (n * n), i => i) + RowIds(rows)
    requires IsData(Shape(4 * (n * n), parent), x)
    ensures 0 <= x < |id| && 0 <= id[x] && id[x] in rows
    ensures RowCols(Shape(4 * (n * n), parent), x) == TargetSet(id[x], k, n)
  {
    var ncols := 4 * (n * n);
    var sh := Shape(ncols, parent);
    var a := x - ncols - 1;
    Quarter(a, |rows|);
    var i, s := a / 4, a % 4;
    AfterPrefix(id, [0] + seq(ncols, i => i), RowIds(rows), x);
    NodesAt(rows, k, n, i, s);
    var r := rows[i];
    assert id[x] == r;
    forall m: nat | m <= 3 ensures MateCol(sh, x, m) == Targets(r, k, n)[(s + m) % 4] {
      var y := Step(ncols, x, m);
      assert y == ncols + 1 + 4 * i + (s + m) % 4;
      AfterPrefix(parent, seq(ncols + 1, _ => Null), Parents(rows, k, n), y);
      NodesAt(rows, k, n, i, (s + m) % 4);
    }
    RotatedHeaders(sh, x, Targets(r, k, n), s);
  }

  /** When the node m places right of x has header ts[(s + m) % 4], the
      headers of x's row are those of ts. */
  lemma RotatedHeaders(sh: Shape, x: int, ts: seq<int>, s: nat)
    requires |ts| == 4 && s < 4
    requires forall m: nat :: m <= 3 ==> MateCol(sh, x, m) == ts[(s + m) % 4]
    ensures RowCols(sh, x) == set f | 0 <= f < 4 :: ts[f]
  {
    var T := set f | 0 <= f < 4 :: ts[f];
    forall h | h in RowCols(sh, x) ensures h in T {
      var m: nat :| m <= 3 && h == MateCol(sh, x, m);
      var f := (s + m) % 4;
      assert h == ts[f];
    }
    forall h | h in T ensures h in RowCols(sh, x) {
      var f :| 0 <= f < 4 && h == ts[f];
      var m: nat := (f - s + 4) % 4;
      assert (s + m) % 4 == f;
      assert h == MateCol(sh, x, m);
    }
  }

  /** A constraint of a row that is a cell header names the row's cell. */
  lemma CellHeader(row: nat, k: nat, n: nat, f: nat)
    requires Dims(k, n) && row < Cube(n) && f < 4 && Targets(row, k, n)[f] <= n * n
    ensures f == 0 && Targets(row, k, n)[0] == row / n + 1
  {
    TargetsHeaders(row, k, n);
    if f > 0 {
      MulGe(f, n * n);
    }
  }

  /** An exact cover of all the constraints of the matrix built from a
      board is a solution of that board: the row ids of its nodes are
      allowed rows, fill every cell, and are pairwise apart. */
  lemma CoverSolves(parent: seq<int>, id: seq<int>, k: nat, n: nat, givens: seq<nat>, sol: seq<int>)
    requires Dims(k, n)
    requires parent == seq(4 * (n * n) + 1, _ => Null) + Parents(Kept(givens, n, Cube(n)), k, n)
    requires id == [0] + seq(4 * (n * n), i => i) + RowIds(Kept(givens, n, Cube(n)))
    requires ExactCover(Shape(4 * (n * n), parent), sol, Headers(4 * (n * n)))
    ensures forall i :: 0 <= i < |sol| ==> 0 <= sol[i] < |id|
    ensures SolvedBy(givens, k, n, RowIdsOf(id, sol))
  {
    CoverTargets(parent, id, k, n, givens, sol);
    TargetsSolve(givens, k, n, RowIdsOf(id, sol));
  }

  /** The four constraints of a possibility row, as a set of headers. */
  function TargetSet(row: int, k: nat, n: nat): set<int>
    requires k > 0 && n > 0 && row >= 0
  {
    set f | 0 <= f < 4 :: Targets(row, k, n)[f]
  }

  /** rs is an exact cover of the reduction's 4N² constraints: rows the
      board allows, no constraint met twice, every one met. */
  ghost predicate ExactTargets(givens: seq<nat>, k: nat, n: nat, rs: seq<int>) {
    Dims(k, n) &&
    (forall i :: 0 <= i < |rs| ==> 0 <= rs[i] < Cube(n) && Keeps(givens, n, rs[i])) &&
    (forall i, j :: 0 <= i < j < |rs| ==> TargetSet(rs[i], k, n) !! TargetSet(rs[j], k, n)) &&
    (forall h :: h in Headers(4 * (n * n)) ==> exists i :: 0 <= i < |rs| && h in TargetSet(rs[i], k, n))
  }

  /** An exact cover of the matrix built from a board, read as row ids,
      is an exact cover of the constraints. */
  lemma {:induction false} CoverTargets(parent: seq<int>, id: seq<int>, k: nat, n: nat, givens: seq<nat>, sol: seq<int>)
    requires Dims(k, n)
    requires parent == seq(4 * (n * n) + 1, _ => Null) + Parents(Kept(givens, n, Cube(n)), k, n)
    requires id == [0] + seq(4 * (n * n), i => i) + RowIds(Kept(givens, n, Cube(n)))
    requires ExactCover(Shape(4 * (n * n), parent), sol, Headers(4 * (n * n)))
    ensures forall i :: 0 <= i < |sol| ==> 0 <= sol[i] < |id|
    ensures ExactTargets(givens, k, n, RowIdsOf(id, sol))
  {
    var ncols, rows := 4 * (n * n), Kept(givens, n, Cube(n));
    var sh := Shape(ncols, parent);
    KeptSpec(givens, n, Cube(n));
    forall i | 0 <= i < |sol|
      ensures 0 <= sol[i] < |id| && 0 <= id[sol[i]] < Cube(n) && Keeps(givens, n, id[sol[i]])
      ensures RowCols(sh, sol[i]) == TargetSet(id[sol[i]], k, n)
    {
      NodeRow(parent, id, k, n, rows, sol[i]);
    }
    var rs := RowIdsOf(id, sol);
    forall h | h in Headers(ncols) ensures exists i :: 0 <= i < |rs| && h in TargetSet(rs[i], k, n) {
      var i :| 0 <= i < |sol| && h in RowCols(sh, sol[i]);
      assert h in TargetSet(rs[i], k, n);
    }
  }

  /** An exact cover of the constraints solves the board. */
  lemma {:induction false} TargetsSolve(givens: seq<nat>, k: nat, n: nat, rs: seq<int>)
    requires ExactTargets(givens, k, n, rs)
    ensures SolvedBy(givens, k, n, rs)
  {
    forall c | 0 <= c < n * n ensures Filled(n, rs, c) {
      var h := c + 1;
      assert Headers(4 * (n * n))[c] == h;
      assert h in Headers(4 * (n * n));
      var i :| 0 <= i < |rs| && h in TargetSet(rs[i], k, n);
      var f :| 0 <= f < 4 && h == Targets(rs[i], k, n)[f];
      CellHeader(rs[i], k, n, f);
      assert rs[i] / n == c;
    }
    forall i, j | 0 <= i < j < |rs| ensures Apart(k, n, rs[i], rs[j]) {
      forall f | 0 <= f < 4 ensures Targets(rs[i], k, n)[f] != Targets(rs[j], k, n)[f] {
        assert Targets(rs[i], k, n)[f] in TargetSet(rs[i], k, n);
        assert Targets(rs[j], k, n)[f] in TargetSet(rs[j], k, n);
      }
      ApartByTargets(k, n, rs[i], rs[j]);
    }
  }

  // ---------------------------------------------------------------------
  // The filled board

  /** grid is a completed Sudoku grid for the board whose cells are
      `givens` (cell i + j*N is board column i of board row j): every cell
      holds a digit 1..N, a given is kept, and no board row, board column
      or box holds a digit twice. */
  ghost predicate SolvedGrid(givens: seq<nat>, k: nat, n: nat, grid: seq<nat>) {
    Dims(k, n) && |grid| == n * n && |givens| == n * n &&
    (forall c :: 0 <= c < n * n ==> 1 <= grid[c] <= n) &&
    (forall c :: 0 <= c < n * n && givens[c] != 0 ==> grid[c] == givens[c]) &&
    (forall c: nat, c': nat :: c < c' < n * n && CellRow(c, n) == CellRow(c', n) ==> grid[c] != grid[c']) &&
    (forall c: nat, c': nat :: c < c' < n * n && CellColumn(c, n) == CellColumn(c', n) ==> grid[c] != grid[c']) &&
    (forall c: nat, c': nat :: c < c' < n * n && CellBox(c, k, n) == CellBox(c', k, n) ==> grid[c] != grid[c'])
  }

  /** Board row, board column and box of cell c. */
  function CellRow(c: nat, n: nat): nat
    requires n > 0
  {
    c / n
  }

  function CellColumn(c: nat, n: nat): nat
    requires n > 0
  {
    c % n
  }

  function CellBox(c: nat, k: nat, n: nat): nat
    requires k > 0 && n > 0
  {
    Box(CellRow(c, n), CellColumn(c, n), k)
  }

  /** Storing the rows of a solution of the board on the board gives a
      completed grid that keeps the givens. */
  lemma {:induction false} SolutionFillsGrid(givens: seq<nat>, k: nat, n: nat, rs: seq<int>)
    requires |givens| == n * n && SolvedBy(givens, k, n, rs)
    ensures SolvedGrid(givens, k, n, Placed(givens, n, rs))
  {
    var grid := Placed(givens, n, rs);
    forall c | 0 <= c < n * n
      ensures 1 <= grid[c] <= n
      ensures givens[c] != 0 ==> grid[c] == givens[c]
    {
      var i := CellSource(givens, k, n, rs, c);
    }
    forall c: nat, c': nat | c < c' < n * n
      ensures CellRow(c, n) == CellRow(c', n) ==> grid[c] != grid[c']
      ensures CellColumn(c, n) == CellColumn(c', n) ==> grid[c] != grid[c']
      ensures CellBox(c, k, n) == CellBox(c', k, n) ==> grid[c] != grid[c']
    {
      CellsApart(givens, k, n, rs, c, c');
    }
  }

  /** Two cells of the same board row, board column or box get different
      digits from a solution. */
  lemma CellsApart(givens: seq<nat>, k: nat, n: nat, rs: seq<int>, c: nat, c': nat)
    requires |givens| == n * n && SolvedBy(givens, k, n, rs) && c < c' < n * n
    ensures var grid := Placed(givens, n, rs);
      (CellRow(c, n) == CellRow(c', n) || CellColumn(c, n) == CellColumn(c', n) ||
       CellBox(c, k, n) == CellBox(c', k, n)) ==> grid[c] != grid[c']
  {
    var i := CellSource(givens, k, n, rs, c);
    var j := CellSource(givens, k, n, rs, c');
    if i < j {
      assert Apart(k, n, rs[i], rs[j]);
    } else {
      assert Apart(k, n, rs[j], rs[i]);
    }
  }

  /** The row of the solution that fills cell c, and what it leaves
      there. */
  lemma CellSource(givens: seq<nat>, k: nat, n: nat, rs: seq<int>, c: nat) returns (i: int)
    requires |givens| == n * n && SolvedBy(givens, k, n, rs) && c < n * n
    ensures 0 <= i < |rs| && 0 <= rs[i] && rs[i] / n == c
    ensures Placed(givens, n, rs)[c] == Offset(rs[i], n) + 1 && Offset(rs[i], n) < n
    ensures CellRow(c, n) == RowIndex(rs[i], n) && CellColumn(c, n) == ColIndex(rs[i], n)
    ensures givens[c] == 0 || givens[c] == Offset(rs[i], n) + 1
  {
    assert Filled(n, rs, c);
    i :| 0 <= i < |rs| && rs[i] / n == c;
    PlacedCells(givens, k, n, rs);
    CellOfRow(rs[i], k, n);
    DecodeRanges(rs[i], n);
    assert CellAt(givens, c) == givens[c];
  }

  // ---------------------------------------------------------------------
  // main, from matrix_create to the filled board

  /** main after the board is read: build the matrix, solve it, and on
      success store the solution on the board.  On success the board is a
      completed Sudoku grid that keeps its givens; on failure it is left
      as read. */
  /** An exact cover of the matrix built from `givens` fills the grid as a
      solution of the puzzle. */
  lemma CoverFillsGrid(parent: seq<int>, id: seq<int>, k: nat, n: nat, givens: seq<nat>, sol: seq<int>)
    requires Dims(k, n) && |givens| == n * n
    requires parent == seq(4 * (n * n) + 1, _ => Null) + Parents(Kept(givens, n, Cube(n)), k, n)
    requires id == [0] + seq(4 * (n * n), i => i) + RowIds(Kept(givens, n, Cube(n)))
    requires ExactCover(Shape(4 * (n * n), parent), sol, Headers(4 * (n * n)))
    ensures forall i :: 0 <= i < |sol| ==> 0 <= sol[i] < |id|
    ensures SolvedGrid(givens, k, n, Placed(givens, n, RowIdsOf(id, sol)))
  {
    CoverSolves(parent, id, k, n, givens, sol);
    SolutionFillsGrid(givens, k, n, RowIdsOf(id, sol));
  }

  method SolveBoard(b: Board) returns (found: bool)
    requires b.Valid() && b.Sized() && b.cells != null && b.size == b.gridSize
    modifies b.cells
    ensures b.Valid()
    ensures found ==> SolvedGrid(old(b.Contents()), b.cellSize, b.lineSize, b.Contents())
    ensures !found ==> b.Contents() == old(b.Contents())
  {
    var m := new Matrix(b);
    ghost var givens, k, n := b.Contents(), b.cellSize, b.lineSize;
    MulGe(n, n);
    assert m.ring == Headers(m.ncols) && m.ncols > 0;
    var solution;
    found, solution := m.Solve();
    if found {
      CoverFillsGrid(m.parent, m.id, k, n, givens, solution);
      FillBoard(b, m, solution);
    }
  }
}
