/** matrix_create: the exact-cover matrix of a Sudoku board, built node by
    node in an arena.  Header col + 1 is the column of constraint col;
    each possibility row the board allows adds four data nodes, one under
    each of its four constraints. */
module Build {
  import opened Links
  import opened TorusSpec
  import opened Layout
  import opened SudokuBoard
  import opened BuildLaws
  import opened Nodes

  /** The arena after the headers and the possibility rows `rows` (in the
      order they were added) are in place: the root and the headers carry
      no parent, the root has id 0 and header col + 1 has id col, each row
      contributes four nodes with its four constraint headers as parents
      and its row id, and the links form a well-formed torus whose root
      list runs through all headers in order and whose columns list their
      nodes in the order they were added. */
  ghost predicate Built(A: Arena, k: nat, n: nat, rows: seq<nat>)
    requires k > 0 && n > 0
    reads A
  {
    A.Sized() && Holds(A.parent, A.id, A.Current(), k, n, rows)
  }

  /** Built, on the arena's contents. */
  ghost predicate Holds(parent: seq<int>, id: seq<int>, S: Snap, k: nat, n: nat, rows: seq<nat>)
    requires k > 0 && n > 0
  {
    var ncols := 4 * (n * n);
    var sh := Shape(ncols, parent);
    parent == seq(ncols + 1, _ => Null) + Parents(rows, k, n) &&
    id == [0] + seq(ncols, i => i) + RowIds(rows) &&
    WellFormed(sh, S, Headers(ncols), ColumnLists(sh))
  }

  /** Adding the nodes of one more possibility row keeps the torus well
      formed, with the new nodes at the bottom of their columns. */
  lemma HoldsGrow(parent: seq<int>, id: seq<int>, S: Snap, k: nat, n: nat, rows: seq<nat>, row: nat)
    requires Dims(k, n) && row < Cube(n)
    requires Holds(parent, id, S, k, n, rows)
    ensures Tails(S, Targets(row, k, n)) && RowHeaders(4 * (n * n), Targets(row, k, n))
    ensures Holds(parent + Targets(row, k, n), id + [row, row, row, row],
                  GrowSnap(S, Targets(row, k, n), |parent|), k, n, rows + [row])
  {
    var ncols, cs := 4 * (n * n), Targets(row, k, n);
    var sh := Shape(ncols, parent);
    TargetsHeaders(row, k, n);
    assert forall f :: 0 <= f < 4 ==> Headers(ncols)[cs[f] - 1] == cs[f];
    GrowWellFormed(sh, S, Headers(ncols), ColumnLists(sh), cs);
    ColumnListsGrow(sh, cs);
    NodesSnoc(rows, row, k, n);
  }

  /** The first half of matrix_create: the root, then one header per
      constraint, each a one-node vertical ring, chained right in order and
      closed back to the root.  Returns the constraints array. */
  method CreateHeaders(A: Arena, ncols: nat) returns (constraints: seq<int>)
    requires A.Sized() && A.left == []
    modifies A
    ensures constraints == Headers(ncols)
    ensures A.Sized() && A.parent == seq(ncols + 1, _ => Null) && A.id == [0] + seq(ncols, i => i)
    ensures WellFormed(Shape(ncols, A.parent), A.Current(), Headers(ncols), ColumnLists(Shape(ncols, A.parent)))
  {
    var h := A.NodeCreate(ColumnNode, Null, 0);
    constraints := [];
    var previous := h;
    for col := 0 to ncols
      invariant Chained(A, col) && previous == col
      invariant constraints == Headers(col)
    {
      var c := AddHeader(A, col, previous);
      constraints := constraints + [c];
      previous := c;
    }
    ghost var right, left := A.right, A.left;
    A.LinkNodes(previous, h, LinkRight);
    assert A.right == right[ncols := 0] && A.left == left[0 := ncols];
    ChainClosed(right, left, ncols);
    EmptyWellFormed(Shape(ncols, A.parent), A.Current());
  }

  /** The root and the headers of constraints 0 .. col - 1 are in place:
      no parents, ids 0 and then the constraint numbers, each header a
      one-node vertical ring with count 0, and the root list open at its
      two ends, running right from the root through the headers in order. */
  ghost predicate Chained(A: Arena, col: nat)
    reads A
  {
    A.Sized() && |A.left| == col + 1 &&
    A.parent == seq(col + 1, _ => Null) && A.id == [0] + seq(col, i => i) &&
    (forall i :: 0 <= i < col ==> A.right[i] == i + 1) &&
    (forall i :: 0 < i <= col ==> A.left[i] == i - 1) &&
    (forall x :: 1 <= x <= col ==> A.down[x] == x && A.up[x] == x && A.count[x] == 0)
  }

  /** Linking the last header back to the root closes the chain into the
      root's circular list. */
  lemma ChainClosed(right: seq<int>, left: seq<int>, ncols: nat)
    requires |right| == |left| == ncols + 1
    requires forall i :: 0 <= i < ncols ==> right[i] == i + 1
    requires forall i :: 0 < i <= ncols ==> left[i] == i - 1
    ensures Circular(Axis(right[ncols := 0], left[0 := ncols]), [0] + Headers(ncols))
  {
    forall i | 0 <= i < ncols ensures right[i] == i + 1 && left[i + 1] == i {
      assert 0 < i + 1 <= ncols;
    }
    ChainCircular(Axis(right[ncols := 0], left[0 := ncols]), ncols);
  }

  /** One pass of matrix_create's header loop: create the header of
      constraint col, close its vertical ring on itself and chain it to
      the right of the previous header. */
  method AddHeader(A: Arena, col: nat, previous: int) returns (c: int)
    requires Chained(A, col) && previous == col
    modifies A
    ensures Chained(A, col + 1) && c == col + 1
  {
    c := A.NodeCreate(ColumnNode, Null, col);
    A.LinkNodes(c, c, LinkDown);
    ghost var right, left := A.right, A.left;
    A.LinkNodes(previous, c, LinkRight);
    assert A.right == right[col := col + 1] && A.left == left[col + 1 := col];
  }

  /** One pass of matrix_create's row loop that does not skip: the four
      data nodes of possibility row `row` go under the headers cs. */
  method AppendRow(A: Arena, k: nat, n: nat, ghost rows: seq<nat>, row: nat, cs: seq<int>)
    requires Dims(k, n) && row < Cube(n) && cs == Targets(row, k, n)
    requires Built(A, k, n, rows)
    modifies A
    ensures Built(A, k, n, rows + [row])
  {
    HoldsGrow(A.parent, A.id, A.Current(), k, n, rows, row);
    A.AddRow(row, cs);
  }

  /** The second half of matrix_create: for every possibility row below
      N³, in increasing order, skip it when the board rules its digit out
      of its cell, and otherwise add its four nodes under the headers of
      its cell, row-digit, column-digit and box-digit constraints. */
  method AddRows(A: Arena, b: Board, constraints: seq<int>)
    requires b.Valid() && b.Sized()
    requires constraints == Headers(4 * (b.lineSize * b.lineSize))
    requires Built(A, b.cellSize, b.lineSize, [])
    modifies A
    ensures Built(A, b.cellSize, b.lineSize, Kept(b.Contents(), b.lineSize, Cube(b.lineSize)))
  {
    var k, n := b.cellSize, b.lineSize;
    ghost var contents := b.Contents();
    var rows := n * b.gridSize;
    assert rows == Cube(n);
    for row := 0 to rows
      invariant b.Contents() == contents
      invariant Built(A, k, n, Kept(contents, n, row))
    {
      Possibility(A, b, constraints, row, contents);
    }
  }

  /** One pass of matrix_create's row loop. */
  method Possibility(A: Arena, b: Board, constraints: seq<int>, row: nat, ghost contents: seq<nat>)
    requires b.Valid() && b.Sized() && row < Cube(b.lineSize) && contents == b.Contents()
    requires constraints == Headers(4 * (b.lineSize * b.lineSize))
    requires Built(A, b.cellSize, b.lineSize, Kept(contents, b.lineSize, row))
    modifies A
    ensures Built(A, b.cellSize, b.lineSize, Kept(contents, b.lineSize, row + 1))
  {
    ghost var before := Kept(contents, b.lineSize, row);
    var keep := Allows(b, row);
    if !keep {
      assert Kept(contents, b.lineSize, row + 1) == before;
      return;
    }
    assert Kept(contents, b.lineSize, row + 1) == before + [row];
    var cs := RowConstraints(constraints, b.cellSize, b.lineSize, b.gridSize, row);
    AppendRow(A, b.cellSize, b.lineSize, before, row, cs);
  }

  /** The test of matrix_create's row loop: a possibility row is skipped
      when its cell holds a value other than its digit. */
  method Allows(b: Board, row: nat) returns (keep: bool)
    requires b.Valid() && b.Sized() && row < Cube(b.lineSize)
    ensures keep == Keeps(b.Contents(), b.lineSize, row)
  {
    var n := b.lineSize;
    RowCell(b.cellSize, n, row);
    var rowIdx := row / b.gridSize;
    var colIdx := (row / n) % n;
    var offset := row % n;
    var value := b.Get(colIdx, rowIdx);
    keep := !(value != 0 && value != offset + 1);
  }

  /** The constraints array lookups of matrix_create's row loop: the
      headers of the cell, row-digit, column-digit and box-digit
      constraints of possibility row `row`. */
  method RowConstraints(constraints: seq<int>, k: nat, n: nat, gridSize: nat, row: nat) returns (cs: seq<int>)
    requires Dims(k, n) && gridSize == n * n && row < Cube(n)
    requires constraints == Headers(4 * (n * n))
    ensures cs == Targets(row, k, n)
    ensures RowHeaders(4 * (n * n), cs)
  {
    var constraintSetSize := n * n;
    var rowIdx := row / gridSize;
    var colIdx := (row / n) % n;
    var offset := row % n;
    ConstraintRange(row, 0, k, n);
    ConstraintRange(row, 1, k, n);
    ConstraintRange(row, 2, k, n);
    ConstraintRange(row, 3, k, n);
    var numConstraint := constraints[0 * constraintSetSize + row / n];
    var rowConstraint := constraints[1 * constraintSetSize + rowIdx * n + offset];
    var colConstraint := constraints[2 * constraintSetSize + colIdx * n + offset];
    var boxConstraint := constraints[3 * constraintSetSize + (k * (rowIdx / k) + colIdx / k) * n + offset];
    cs := [numConstraint, rowConstraint, colConstraint, boxConstraint];
    TargetsHeaders(row, k, n);
  }

  /** matrix_create: the arena holding the headers of all 4N² constraints
      and the nodes of exactly the possibility rows the board allows. */
  method MatrixCreate(b: Board) returns (A: Arena)
    requires b.Valid() && b.Sized()
    ensures fresh(A)
    ensures Built(A, b.cellSize, b.lineSize, Kept(b.Contents(), b.lineSize, Cube(b.lineSize)))
  {
    A := new Arena();
    var constraintSetSize := b.lineSize * b.lineSize;
    var cols := 4 * constraintSetSize;
    var constraints := CreateHeaders(A, cols);
    assert Parents([], b.cellSize, b.lineSize) == [] && RowIds([]) == [];
    AddRows(A, b, constraints);
  }

  /** Rows added in increasing order leave every column listing its nodes
      in strictly increasing order of row id, top to bottom. */
  lemma {:induction false} ColumnsInRowOrder(parent: seq<int>, id: seq<int>, ncols: nat, h: int)
    requires ncols < |parent| && PairsOrdered(parent, id, ncols + 1)
    requires 0 <= h <= ncols
    ensures RowOrdered(ColumnLists(Shape(ncols, parent))[h], id)
  {
    var vl := ColumnLists(Shape(ncols, parent))[h];
    assert vl == Members(parent, h, ncols + 1, |parent|);
    MembersSpec(parent, h, ncols + 1, |parent|);
    forall i, j | 0 <= i < j < |vl| ensures 0 <= vl[i] < |id| && 0 <= vl[j] < |id| && id[vl[i]] < id[vl[j]] {
      assert vl[i] in vl && vl[j] in vl;
    }
    assert RowOrdered(vl, id);
  }

  /** Any two data nodes from lo on under the same header have row ids in
      the order of the nodes. */
  ghost predicate PairsOrdered(parent: seq<int>, id: seq<int>, lo: nat) {
    |id| == |parent| &&
    forall x, y :: lo <= x < y < |parent| && parent[x] == parent[y] ==> id[x] < id[y]
  }

  /** The arena matrix_create builds from increasing rows has its pairs
      of data nodes in row-id order. */
  lemma {:induction false} NodesInRowOrder(parent: seq<int>, id: seq<int>, k: nat, n: nat, ncols: nat, rows: seq<nat>)
    requires Dims(k, n) && ncols == 4 * (n * n)
    requires parent == seq(ncols + 1, _ => Null) + Parents(rows, k, n)
    requires id == [0] + seq(ncols, i => i) + RowIds(rows)
    requires forall i :: 0 <= i < |rows| ==> rows[i] < Cube(n)
    requires forall i, j :: 0 <= i < j < |rows| ==> rows[i] < rows[j]
    ensures ncols < |parent| && PairsOrdered(parent, id, ncols + 1)
  {
    forall x, y | ncols + 1 <= x < y < |parent| && parent[x] == parent[y] ensures id[x] < id[y] {
      PairInRowOrder(parent, id, k, n, ncols, rows, x, y);
    }
  }

  /** Two data nodes x < y under the same header: x's row id is the
      smaller. */
  lemma {:induction false} PairInRowOrder(parent: seq<int>, id: seq<int>, k: nat, n: nat, ncols: nat, rows: seq<nat>, x: int, y: int)
    requires Dims(k, n) && ncols == 4 * (n * n)
    requires parent == seq(ncols + 1, _ => Null) + Parents(rows, k, n)
    requires id == [0] + seq(ncols, i => i) + RowIds(rows)
    requires forall i :: 0 <= i < |rows| ==> rows[i] < Cube(n)
    requires forall i, j :: 0 <= i < j < |rows| ==> rows[i] < rows[j]
    requires ncols + 1 <= x < y < |parent| && parent[x] == parent[y]
    ensures 0 <= x < |id| && 0 <= y < |id| && id[x] < id[y]
  {
    var ps, ids := Parents(rows, k, n), RowIds(rows);
    AfterPrefix(parent, seq(ncols + 1, _ => Null), ps, x);
    AfterPrefix(parent, seq(ncols + 1, _ => Null), ps, y);
    AfterPrefix(id, [0] + seq(ncols, i => i), ids, x);
    AfterPrefix(id, [0] + seq(ncols, i => i), ids, y);
    RowOrder(k, n, rows, x - ncols - 1, y - ncols - 1);
  }

  /** In the matrix built from a board, every column lists its nodes in
      strictly increasing order of row id. */
  lemma {:induction false} BuiltInRowOrder(parent: seq<int>, id: seq<int>, k: nat, n: nat, contents: seq<nat>)
    requires Dims(k, n)
    requires parent == seq(4 * (n * n) + 1, _ => Null) + Parents(Kept(contents, n, Cube(n)), k, n)
    requires id == [0] + seq(4 * (n * n), i => i) + RowIds(Kept(contents, n, Cube(n)))
    ensures forall h :: 0 <= h < |ColumnLists(Shape(4 * (n * n), parent))| ==>
              RowOrdered(ColumnLists(Shape(4 * (n * n), parent))[h], id)
  {
    var ncols, rows := 4 * (n * n), Kept(contents, n, Cube(n));
    KeptSpec(contents, n, Cube(n));
    NodesInRowOrder(parent, id, k, n, ncols, rows);
    forall h | 0 <= h < |ColumnLists(Shape(ncols, parent))|
      ensures RowOrdered(ColumnLists(Shape(ncols, parent))[h], id)
    {
      ColumnsInRowOrder(parent, id, ncols, h);
    }
  }

  /** The nodes of list vl have strictly increasing row ids. */
  ghost predicate RowOrdered(vl: seq<int>, id: seq<int>) {
    forall i, j :: 0 <= i < j < |vl| ==> 0 <= vl[i] < |id| && 0 <= vl[j] < |id| && id[vl[i]] < id[vl[j]]
  }

  /** Data nodes a < b (counted from the first data node) under the same
      header have row ids in strictly increasing order. */
  lemma {:induction false} RowOrder(k: nat, n: nat, rows: seq<nat>, a: nat, b: nat)
    requires Dims(k, n)
    requires forall i :: 0 <= i < |rows| ==> rows[i] < Cube(n)
    requires forall i, j :: 0 <= i < j < |rows| ==> rows[i] < rows[j]
    requires a < b < 4 * |rows| && Parents(rows, k, n)[a] == Parents(rows, k, n)[b]
    ensures RowIds(rows)[a] < RowIds(rows)[b]
  {
    Quarter(a, |rows|);
    Quarter(b, |rows|);
    SameColumnOrder(k, n, rows, a, b, a / 4, a % 4, b / 4, b % 4);
  }

  /** Past a prefix, a concatenation reads its second part. */
  lemma AfterPrefix(s: seq<int>, pre: seq<int>, t: seq<int>, x: int)
    requires s == pre + t && |pre| <= x < |s|
    ensures s[x] == t[x - |pre|]
  {
  }

  /** Node a of the data nodes is node a % 4 of row a / 4. */
  lemma Quarter(a: nat, m: nat)
    requires a < 4 * m
    ensures a == 4 * (a / 4) + a % 4 && a % 4 < 4 && a / 4 < m
  {
  }

  /** Node f of the i-th row and node g of the j-th row, the first before
      the second, under the same header: the rows differ, so the first
      row id is the smaller. */
  lemma {:induction false} SameColumnOrder(k: nat, n: nat, rows: seq<nat>, a: nat, b: nat, i: nat, f: nat, j: nat, g: nat)
    requires Dims(k, n)
    requires forall i :: 0 <= i < |rows| ==> rows[i] < Cube(n)
    requires forall i, j :: 0 <= i < j < |rows| ==> rows[i] < rows[j]
    requires i < |rows| && j < |rows| && f < 4 && g < 4 && a == 4 * i + f < b == 4 * j + g
    requires Parents(rows, k, n)[a] == Parents(rows, k, n)[b]
    ensures RowIds(rows)[a] < RowIds(rows)[b]
  {
    NodesAt(rows, k, n, i, f);
    NodesAt(rows, k, n, j, g);
    if i == j {
      TargetsDistinct(rows[i], k, n, f, g);
      assert false;
    }
    assert rows[i] < rows[j];
  }

  /** The four constraints of a possibility row are four different
      headers. */
  lemma TargetsDistinct(row: nat, k: nat, n: nat, f: nat, g: nat)
    requires Dims(k, n) && row < Cube(n) && f < g < 4
    ensures Targets(row, k, n)[f] != Targets(row, k, n)[g]
  {
    TargetsHeaders(row, k, n);
  }
}
