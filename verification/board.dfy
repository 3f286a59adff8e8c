/** The Sudoku board: a flat buffer of cells addressed by column i and
    row j, with the global dimensions the board reader fills in. */
module SudokuBoard {
  import opened Layout

  /** The flat index board_get and board_set compute: i + j * line_size,
      evaluated in `unsigned int` arithmetic (all three operands are
      unsigned int) and only then widened to size_t. */
  function Index(i: nat, j: nat, n: nat): nat {
    (i + (j * n) % Uint32Modulus) % Uint32Modulus
  }

  /** On the board itself the index does not wrap: it is i + j*N, a cell
      of the N*N grid. */
  lemma IndexOnBoard(i: nat, j: nat, n: nat)
    requires i < n && j < n && n * n < Uint32Modulus
    ensures Index(i, j, n) == i + j * n < n * n
  {
    MixedBelow(j, i, n, n);
  }

  /** Two cells of the board never share an index. */
  lemma IndexInjective(i: nat, j: nat, i': nat, j': nat, n: nat)
    requires i < n && j < n && i' < n && j' < n && n * n < Uint32Modulus
    requires Index(i, j, n) == Index(i', j', n)
    ensures i == i' && j == j'
  {
    IndexOnBoard(i, j, n);
    IndexOnBoard(i', j', n);
    MixedInjective(j, i, j', i', n);
  }

  /** Row ids are below N³, which fits an unsigned int, and so does the
      number of cells. */
  lemma GridFits(k: nat, n: nat)
    requires Dims(k, n)
    ensures n * n <= Cube(n) && n * n < Uint32Modulus
  {
    assert Cube(n) == (n * n) * n;
    MulMono(1, n, n * n);
  }

  /** The cell and digit of a row id below N³ are on the board, and the
      cell's coordinates fit an unsigned int. */
  lemma RowCell(k: nat, n: nat, row: nat)
    requires Dims(k, n) && row < Cube(n)
    ensures RowIndex(row, n) < n && ColIndex(row, n) < n && Offset(row, n) < n && n < Uint32Modulus
  {
    DecodeRanges(row, n);
    GridFits(k, n);
    MulGe(n, n);
  }

  /** main.c's test for a possibility row: digit offset+1 may go in a cell
      holding `value` when the cell is empty (0) or already holds that
      digit. */
  predicate Possible(value: nat, offset: nat) {
    value == 0 || value == offset + 1
  }

  /** An empty cell allows every digit; a cell holding v allows only digit
      v (offset v - 1), so a pre-filled cell with v in 1..N gives exactly
      one possibility row and a value above N gives none. */
  lemma PossibleOffsets(value: nat, n: nat)
    ensures value == 0 ==> forall d: nat :: d < n ==> Possible(value, d)
    ensures 1 <= value <= n ==> forall d: nat :: d < n ==> (Possible(value, d) <==> d == value - 1)
    ensures value > n ==> forall d: nat :: d < n ==> !Possible(value, d)
  {
  }

  /** The value at flat index idx of a board whose cells are `contents`:
      0 past the end, as board_get answers. */
  function CellAt(contents: seq<nat>, idx: nat): nat {
    if idx < |contents| then contents[idx] else 0
  }

  /** Whether matrix_create keeps possibility row `row` of a board whose
      cells are `contents`: whether its digit may go in its cell. */
  predicate Keeps(contents: seq<nat>, n: nat, row: nat)
    requires n > 0
  {
    Possible(CellAt(contents, Index(ColIndex(row, n), RowIndex(row, n), n)), Offset(row, n))
  }

  /** The possibility rows below hi that matrix_create keeps, in
      increasing order. */
  function Kept(contents: seq<nat>, n: nat, hi: nat): seq<nat>
    requires n > 0
  {
    if hi == 0 then [] else Kept(contents, n, hi - 1) + if Keeps(contents, n, hi - 1) then [hi - 1] else []
  }

  /** Kept(hi) holds exactly the kept rows below hi, strictly increasing. */
  lemma {:induction false} KeptSpec(contents: seq<nat>, n: nat, hi: nat)
    requires n > 0
    ensures forall row: nat :: row in Kept(contents, n, hi) <==> row < hi && Keeps(contents, n, row)
    ensures forall i :: 0 <= i < |Kept(contents, n, hi)| ==> Kept(contents, n, hi)[i] < hi
    ensures forall i, j :: 0 <= i < j < |Kept(contents, n, hi)| ==> Kept(contents, n, hi)[i] < Kept(contents, n, hi)[j]
  {
    if hi > 0 {
      KeptSpec(contents, n, hi - 1);
      var m := Kept(contents, n, hi - 1);
      if Keeps(contents, n, hi - 1) {
        assert Kept(contents, n, hi) == m + [hi - 1];
        forall i, j | 0 <= i < j < |Kept(contents, n, hi)| ensures Kept(contents, n, hi)[i] < Kept(contents, n, hi)[j] {
          if j == |m| { assert m[i] in m; }
        }
      } else {
        assert Kept(contents, n, hi) == m;
      }
    }
  }

  class Board {
    /** `board`: the cells, or null when no board has been read. */
    var cells: array?<nat>
    /** board_size */
    var size: nat
    /** board_grid_size, board_cell_size, board_line_size */
    var gridSize: nat
    var cellSize: nat
    var lineSize: nat

    /** The buffer, when there is one, holds board_size cells. */
    ghost predicate Valid()
      reads this
    {
      cells != null ==> cells.Length == size
    }

    /** The dimensions of a board the reader accepted. */
    ghost predicate Sized()
      reads this
    {
      Dims(cellSize, lineSize) && gridSize == lineSize * lineSize
    }

    /** board_get: the cell at index i + j*line_size, or 0 when there is no
        board or the index is not below board_size. */
    function Get(i: nat, j: nat): (v: nat)
      requires Valid() && i < Uint32Modulus && j < Uint32Modulus
      reads this, cells
      ensures cells == null || Index(i, j, lineSize) >= size ==> v == 0
      ensures v == CellAt(Contents(), Index(i, j, lineSize))
    {
      var idx := Index(i, j, lineSize);
      if cells != null && idx < size then cells[idx] else 0
    }

    /** The cells as values: the buffer's contents, or none when there is
        no board. */
    function Contents(): (cs: seq<nat>)
      requires Valid()
      reads this, cells
      ensures |cs| == if cells == null then 0 else size
    {
      if cells == null then [] else cells[..]
    }

    /** board_set: store value at index i + j*line_size when there is a
        board and the index is below board_size; otherwise do nothing. */
    method Set(i: nat, j: nat, value: nat)
      requires Valid() && i < Uint32Modulus && j < Uint32Modulus
      modifies cells
      ensures Valid()
      ensures cells != null ==>
                cells[..] == if Index(i, j, lineSize) < size
                             then old(cells[..])[Index(i, j, lineSize) := value]
                             else old(cells[..])
      ensures Get(i, j) == if cells != null && Index(i, j, lineSize) < size then value else old(Get(i, j))
      ensures forall i': nat, j': nat ::
                i' < Uint32Modulus && j' < Uint32Modulus && Index(i', j', lineSize) != Index(i, j, lineSize) ==>
                  Get(i', j') == old(Get(i', j'))
    {
      var idx := Index(i, j, lineSize);
      if cells != null && idx < size {
        cells[idx] := value;
      }
    }
  }
}
