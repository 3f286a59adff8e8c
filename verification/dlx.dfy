/** The dancing-links matrix and Algorithm X.

    The nodes of `struct dlx_node` live in an arena owned by the matrix:
    node n's left, right, up and down links are left[n], right[n],
    up[n] and down[n], its parent header is parent[n], its row id (data
    node) or column id (header) is id[n], and a header's count is
    count[n].  NULL is -1.  Node 0 is the root. */
module Dlx {
  import opened Links
  import opened TorusSpec
  import opened CoverLaws
  import opened Layout
  import opened SudokuBoard
  import opened BuildLaws
  import opened Build

  /** (2 << sizeof(size_t)) - 1 with an 8-byte size_t: the count that
      choose_min_length_column starts its search for a minimum from. */
  const ChooseBound: int := 511

  class Matrix {
    /** Number of constraint columns; headers are nodes 1..ncols. */
    const ncols: nat
    var left: seq<int>
    var right: seq<int>
    var up: seq<int>
    var down: seq<int>
    const parent: seq<int>
    var id: seq<int>
    var count: seq<int>
    var solved: bool
    /** The headers in the root's list, in order. */
    ghost var ring: seq<int>
    /** For every header, the data nodes of its list from top to bottom. */
    ghost var cols: seq<seq<int>>

    function Current(): Snap
      reads this
    {
      Snap(Axis(right, left), Axis(down, up), count)
    }

    function Layout(): Shape {
      Shape(ncols, parent)
    }

    ghost predicate Valid()
      reads this
    {
      WellFormed(Layout(), Current(), ring, cols)
    }

    /** matrix_create: the unsolved matrix of board b's exact-cover problem.
        Its columns are the 4N² constraints, all live, in id order; its rows
        are the possibility rows the board allows, in increasing order of
        row id, each with one node under each of its four constraints. */
    constructor (b: Board)
      requires b.Valid() && b.Sized()
      ensures ncols == 4 * (b.lineSize * b.lineSize) && !solved
      ensures ring == Headers(ncols) && cols == ColumnLists(Layout())
      ensures parent == seq(ncols + 1, _ => Null) + Parents(Kept(b.Contents(), b.lineSize, Cube(b.lineSize)), b.cellSize, b.lineSize)
      ensures id == [0] + seq(ncols, i => i) + RowIds(Kept(b.Contents(), b.lineSize, Cube(b.lineSize)))
      ensures Valid()
      ensures forall h :: 0 <= h < |cols| ==> RowOrdered(cols[h], id)
    {
      var A := MatrixCreate(b);
      var cols' := 4 * (b.lineSize * b.lineSize);
      ncols := cols';
      left, right, up, down := A.left, A.right, A.up, A.down;
      parent, id, count := A.parent, A.id, A.count;
      solved := false;
      ring := Headers(cols');
      cols := ColumnLists(Shape(cols', A.parent));
      new;
      BuiltInRowOrder(parent, id, b.cellSize, b.lineSize, b.Contents());
    }

    // -------------------------------------------------------------------
    // cover_column and uncover_column

    /** cover_column: cut c out of the root's list, then unlink every other
        node of every row in c's list from its column. */
    method CoverColumn(c: int)
      requires Valid() && c in ring
      modifies this`left, this`right, this`up, this`down, this`count, this`ring, this`cols
      ensures Current() == CoverSnap(Layout(), old(Current()), c, old(cols[c]))
      ensures ring == Except(old(ring), [c])
      ensures cols == Drop(old(cols), Trace(ncols, old(cols[c])))
      ensures Valid()
    {
      ghost var sh, S, vl := Layout(), Current(), cols[c];
      ColumnFacts(sh, S, ring, cols, c);
      CutRing(sh, S, ring, c);
      ColumnPlan(sh, S, ring, cols, c);
      right := right[left[c] := right[c]];
      left := left[right[c] := left[c]];
      UnlinkRows(c, S, vl);
      CoverDone(sh, S, c, vl);
      ghost var ring1, cols1 := Except(ring, [c]), Drop(cols, Trace(ncols, vl));
      CoverWellFormed(sh, S, ring, cols, c);
      ring, cols := ring1, cols1;
    }

    /** The loops of cover_column: for each row of c's list, top to
        bottom, unlink the other nodes of the row from their columns. */
    method UnlinkRows(c: int, ghost S: Snap, ghost vl: seq<int>)
      requires CoverPlan(Layout(), S, c, vl)
      requires Current() == Cut(S, c)
      modifies this`up, this`down, this`count
      ensures Current() == RowsOut(Layout(), S, c, vl, |vl|)
    {
      ghost var sh := Layout();
      assert ColumnView(sh, S, c, vl, 0);
      CircularAnchor(Axis(down, up), c, vl);
      var row := down[c];
      ghost var i := 0;
      while row != c
        invariant 0 <= i <= |vl| && row == if i < |vl| then vl[i] else c
        invariant Current() == RowsOut(sh, S, c, vl, i)
        invariant Axis(right, left) == SpliceOut(S.h, c)
        decreases |vl| - i
      {
        UnlinkRow(row, c, S, vl, i);
        assert ColumnView(sh, S, c, vl, i + 1);
        CircularAt(Axis(down, up), c, vl, i);
        row := down[row];
        i := i + 1;
      }
    }

    /** The inner loop of cover_column: walking right from row, unlink
        each other node of the row from its column. */
    method UnlinkRow(row: int, c: int, ghost S: Snap, ghost vl: seq<int>, ghost i: nat)
      requires CoverPlan(Layout(), S, c, vl) && i < |vl| && row == vl[i]
      requires Current() == RowsOut(Layout(), S, c, vl, i)
      requires Axis(right, left) == SpliceOut(S.h, c)
      modifies this`up, this`down, this`count
      ensures Current() == RowsOut(Layout(), S, c, vl, i + 1)
    {
      ghost var sh := Layout();
      ghost var P := RowsOut(sh, S, c, vl, i);
      assert RowRing(ncols, Axis(right, left), row);
      StepCycle(ncols, row, 0);
      var node := right[row];
      ghost var j := 0;
      while node != row
        invariant 0 <= j <= 3 && node == Step(ncols, row, j + 1)
        invariant Current() == RowOut(sh, P, row, j)
        decreases 3 - j
      {
        StepCycle(ncols, row, j + 1);
        assert StepReady(sh, S, c, vl, i, j);
        UnlinkNode(node, RowOut(sh, P, row, j));
        StepStep(ncols, row, j + 1, 1);
        node := right[node];
        j := j + 1;
      }
      StepCycle(ncols, row, j + 1);
    }

    /** node.up.down = node.down; node.down.up = node.up; count--. */
    method UnlinkNode(node: int, ghost P: Snap)
      requires Current() == P
      requires 0 <= node < |parent| && 0 <= parent[node] < |P.count| && Spliceable(P.v, node)
      modifies this`up, this`down, this`count
      ensures Current() == Unlink(Layout(), P, node)
    {
      down := down[up[node] := down[node]];
      up := up[down[node] := up[node]];
      count := count[parent[node] := count[parent[node]] - 1];
    }

    /** count++; node.down.up = node; node.up.down = node. */
    method RelinkNode(node: int, ghost Q: Snap)
      requires Current() == Q
      requires 0 <= node < |parent| && 0 <= parent[node] < |Q.count| && Spliceable(Q.v, node)
      modifies this`up, this`down, this`count
      ensures Current() == Relink(Layout(), Q, node)
    {
      count := count[parent[node] := count[parent[node]] + 1];
      up := up[down[node] := node];
      down := down[up[node] := node];
    }

    /** uncover_column, right after the matching cover_column(c) taken in
        state S: relink the other nodes of c's rows, then put c back into
        the root's list. */
    method UncoverColumn(c: int, ghost S: Snap, ghost ring0: seq<int>, ghost cols0: seq<seq<int>>)
      requires WellFormed(Layout(), S, ring0, cols0) && c in ring0
      requires Current() == CoverSnap(Layout(), S, c, cols0[c])
      modifies this`left, this`right, this`up, this`down, this`count, this`ring, this`cols
      ensures Current() == UncoverSnap(Layout(), old(Current()), c, cols0[c])
      ensures Current() == S && ring == ring0 && cols == cols0
      ensures Valid()
    {
      ghost var sh, vl := Layout(), cols0[c];
      ColumnFacts(sh, S, ring0, cols0, c);
      ColumnPlan(sh, S, ring0, cols0, c);
      CoverDone(sh, S, c, vl);
      RelinkRows(c, S, vl);
      HeaderBack(sh, S, ring0, c);
      left := left[right[c] := c];
      right := right[left[c] := c];
      ring := ring0;
      cols := cols0;
      CoverUncover(sh, S, ring0, cols0, c);
    }

    /** The loops of uncover_column: for each row of c's list, bottom to
        top, relink the other nodes of the row into their columns. */
    method RelinkRows(c: int, ghost S: Snap, ghost vl: seq<int>)
      requires CoverPlan(Layout(), S, c, vl)
      requires Current() == RowsOut(Layout(), S, c, vl, |vl|)
      requires Axis(right, left) == SpliceOut(S.h, c)
      modifies this`up, this`down, this`count
      ensures Current() == Cut(S, c)
    {
      ghost var sh := Layout();
      assert ColumnView(sh, S, c, vl, |vl|);
      CircularAnchor(Axis(down, up), c, vl);
      var row := up[c];
      ghost var i := |vl|;
      while row != c
        invariant 0 <= i <= |vl| && row == if i > 0 then vl[i - 1] else c
        invariant Current() == RowsOut(sh, S, c, vl, i)
        invariant Axis(right, left) == SpliceOut(S.h, c)
        decreases i
      {
        ghost var r := i - 1;
        RelinkRow(row, c, S, vl, r);
        assert ColumnView(sh, S, c, vl, r);
        CircularAt(Axis(down, up), c, vl, r);
        row := up[row];
        i := r;
      }
    }

    /** The inner loop of uncover_column: walking left from row, relink
        each other node of the row into its column. */
    method RelinkRow(row: int, c: int, ghost S: Snap, ghost vl: seq<int>, ghost i: nat)
      requires CoverPlan(Layout(), S, c, vl) && i < |vl| && row == vl[i]
      requires Current() == RowsOut(Layout(), S, c, vl, i + 1)
      requires Axis(right, left) == SpliceOut(S.h, c)
      modifies this`up, this`down, this`count
      ensures Current() == RowsOut(Layout(), S, c, vl, i)
    {
      ghost var sh := Layout();
      ghost var P := RowsOut(sh, S, c, vl, i);
      assert RowRing(ncols, Axis(right, left), row);
      StepCycle(ncols, row, 0);
      var node := left[row];
      ghost var j := 3;
      while node != row
        invariant 0 <= j <= 3 && node == Step(ncols, row, j)
        invariant Current() == RowOut(sh, P, row, j)
        decreases j
      {
        ghost var j1 := j - 1;
        StepCycle(ncols, row, j);
        assert UnstepReady(sh, S, c, vl, i, j);
        ghost var Q := RowOut(sh, P, row, j);
        assert Relink(sh, Q, node) == RowOut(sh, P, row, j1);
        RelinkNode(node, Q);
        StepBack(ncols, row, j);
        node := left[node];
        j := j1;
      }
      StepCycle(ncols, row, j);
    }

    // -------------------------------------------------------------------
    // choose_min_length_column

    /** The live header with the fewest nodes, the first one on a tie, or
        NULL when no header is live.  The scan starts with no candidate,
        so every count is taken into account. */
    method ChooseMinLengthColumn() returns (best: int)
      requires Valid()
      ensures ring == [] ==> best == Null
      ensures ring != [] ==> exists p :: FirstMinimum(RingCounts(Current(), ring), p) && best == ring[p]
    {
      ghost var cs := RingCounts(Current(), ring);
      var minCount := 0;
      best := Null;
      var curr := right[0];
      ghost var p, q := 0, -1;
      CircularAnchor(Axis(right, left), 0, ring);
      while curr != 0
        invariant 0 <= p <= |ring| && curr == if p < |ring| then ring[p] else 0
        invariant p == 0 <==> q == -1
        invariant q == -1 ==> best == Null
        invariant q != -1 ==> 0 <= q < p && best == ring[q] && minCount == cs[q]
        invariant forall j :: 0 <= j < p ==> cs[q] <= cs[j]
        invariant forall j :: 0 <= j < q ==> cs[q] < cs[j]
        decreases |ring| - p
      {
        if best == Null || count[curr] < minCount {
          best := curr;
          minCount := count[curr];
          q := p;
        }
        CircularAt(Axis(right, left), 0, ring, p);
        curr := right[curr];
        p := p + 1;
      }
      if ring != [] {
        assert FirstMinimum(cs, q);
      }
    }

    /** choose_min_length_column as written: the search starts from the
        bound ChooseBound, so a header is only picked when its count is
        below it, and NULL comes back when every live count reaches it. */
    method ChooseMinLengthColumnAsWritten() returns (best: int)
      requires Valid()
      ensures best == Null <==> forall j :: 0 <= j < |ring| ==> RingCounts(Current(), ring)[j] >= ChooseBound
      ensures best != Null ==> exists p :: FirstMinimum(RingCounts(Current(), ring), p) && best == ring[p]
    {
      ghost var cs := RingCounts(Current(), ring);
      var minCount := ChooseBound;
      best := Null;
      var curr := right[0];
      ghost var p, q := 0, -1;
      CircularAnchor(Axis(right, left), 0, ring);
      while curr != 0
        invariant 0 <= p <= |ring| && curr == if p < |ring| then ring[p] else 0
        invariant q == -1 ==> best == Null && minCount == ChooseBound
        invariant q == -1 ==> forall j :: 0 <= j < p ==> cs[j] >= ChooseBound
        invariant q != -1 ==> 0 <= q < p && best == ring[q] && minCount == cs[q] < ChooseBound && 1 <= best
        invariant q != -1 ==> forall j :: 0 <= j < p ==> cs[q] <= cs[j]
        invariant q != -1 ==> forall j :: 0 <= j < q ==> cs[q] < cs[j]
        decreases |ring| - p
      {
        if count[curr] < minCount {
          best := curr;
          minCount := count[curr];
          q := p;
        }
        CircularAt(Axis(right, left), 0, ring, p);
        curr := right[curr];
        p := p + 1;
      }
      if q != -1 {
        assert FirstMinimum(cs, q);
        assert cs[q] < ChooseBound;
        assert best != Null;
        assert !(forall j :: 0 <= j < |ring| ==> cs[j] >= ChooseBound);
      } else {
        assert p == |ring|;
        assert best == Null;
        assert forall j :: 0 <= j < |ring| ==> cs[j] >= ChooseBound;
      }
      assert cs == RingCounts(Current(), ring);
    }

    /** Where the bound bites: with live headers whose counts all reach
        ChooseBound, choose_min_length_column as written answers NULL
        though the root's list is not empty, and the scan without the
        bound picks a live header. */
    method ChooseBoundMisses() returns (asWritten: int, corrected: int)
      requires Valid() && ring != []
      requires forall j :: 0 <= j < |ring| ==> RingCounts(Current(), ring)[j] >= ChooseBound
      ensures asWritten == Null && corrected in ring
    {
      asWritten := ChooseMinLengthColumnAsWritten();
      corrected := ChooseMinLengthColumn();
    }

    /** Below the bound the two scans agree: when some live header has
        fewer than ChooseBound nodes, both pick the same header. */
    method ChooseBoundAgrees() returns (asWritten: int, corrected: int)
      requires Valid()
      requires exists j :: 0 <= j < |ring| && RingCounts(Current(), ring)[j] < ChooseBound
      ensures asWritten == corrected && corrected in ring
    {
      asWritten := ChooseMinLengthColumnAsWritten();
      corrected := ChooseMinLengthColumn();
      ghost var cs := RingCounts(Current(), ring);
      ghost var p :| FirstMinimum(cs, p) && asWritten == ring[p];
      ghost var q :| FirstMinimum(cs, q) && corrected == ring[q];
      MinimumUnique(cs, p, q);
    }

    // -------------------------------------------------------------------
    // dlx_solve_impl and dlx_solve

    /** The first inner loop of dlx_solve_impl: walking right from row,
        cover the header of each other node of the row.  fs records the
        state before each cover, for the uncover that undoes it. */
    method CoverRowColumns(row: int) returns (ghost fs: seq<Frame>)
      requires Valid() && IsData(Layout(), row) && MateCol(Layout(), row, 0) !in ring
      requires forall n :: 1 <= n <= 3 ==> MateCol(Layout(), row, n) in ring
      modifies this`left, this`right, this`up, this`down, this`count, this`ring, this`cols
      ensures Valid() && |fs| == 4 && CoverChain(Layout(), row, fs)
      ensures fs[0] == Frame(old(Current()), old(ring), old(cols))
      ensures fs[3] == Frame(Current(), ring, cols)
      ensures forall h :: h in ring <==> h in old(ring) && h !in RowCols(Layout(), row)
      ensures |ring| < |old(ring)|
    {
      ghost var sh := Layout();
      fs := [Frame(Current(), ring, cols)];
      assert CoverChain(sh, row, fs);
      StepCycle(ncols, row, 0);
      var node := right[row];
      ghost var j := 0;
      while node != row
        invariant Valid() && 0 <= j <= 3 && node == Step(ncols, row, j + 1)
        invariant |fs| == j + 1 && CoverChain(sh, row, fs)
        invariant fs[0] == Frame(old(Current()), old(ring), old(cols))
        invariant fs[j] == Frame(Current(), ring, cols)
        invariant forall h :: h in ring <==> h in old(ring) && h !in Taken(sh, row, j)
        invariant |ring| <= |old(ring)| && (j > 0 ==> |ring| < |old(ring)|)
        decreases 3 - j
      {
        StepCycle(ncols, row, j + 1);
        ghost var F := fs[j];
        CoverMate(row, node, j, old(ring), F);
        ChainSnoc(Layout(), row, fs, j, F, Frame(Current(), ring, cols));
        fs := fs + [Frame(Current(), ring, cols)];
        node := right[node];
        j := j + 1;
      }
      StepCycle(ncols, row, j + 1);
    }

    /** One step of the covering walk: cover the column of `node`, the
        (j+1)-th node of the row, whose header is still live; the live
        headers lose it, and the node to its right is the next one in the
        row. */
    method CoverMate(row: int, node: int, ghost j: nat, ghost ring0: seq<int>, ghost F: Frame)
      requires Valid() && IsData(Layout(), row) && j < 3 && node == Step(ncols, row, j + 1)
      requires F == Frame(Current(), ring, cols)
      requires forall n :: 1 <= n <= 3 ==> MateCol(Layout(), row, n) in ring0
      requires forall h :: h in ring <==> h in ring0 && h !in Taken(Layout(), row, j)
      modifies this`left, this`right, this`up, this`down, this`count, this`ring, this`cols
      ensures Valid()
      ensures CoverStepOf(Layout(), F, Frame(Current(), ring, cols), MateCol(Layout(), row, j + 1))
      ensures forall h :: h in ring <==> h in ring0 && h !in Taken(Layout(), row, j + 1)
      ensures |ring| < |old(ring)|
      ensures right[node] == Step(ncols, row, j + 2)
    {
      ghost var sh, m := Layout(), MateCol(Layout(), row, j + 1);
      TakenFresh(sh, row, j);
      StepRange(sh, row, j + 1);
      ghost var ring1 := ring;
      CoverShortens(ring, m);
      CoverColumn(parent[node]);
      TakenNext(sh, row, j);
      RingShrinks(ring0, ring1, ring, Taken(sh, row, j), m);
      RowRightAt(sh, Current(), ring, cols, row, j + 1);
    }

    /** The second inner loop of dlx_solve_impl: walking left from row,
        uncover the header of each other node of the row, undoing
        CoverRowColumns. */
    method UncoverRowColumns(row: int, ghost fs: seq<Frame>)
      requires Valid() && IsData(Layout(), row)
      requires |fs| == 4 && CoverChain(Layout(), row, fs)
      requires fs[3] == Frame(Current(), ring, cols)
      modifies this`left, this`right, this`up, this`down, this`count, this`ring, this`cols
      ensures Valid() && Frame(Current(), ring, cols) == fs[0]
    {
      StepCycle(ncols, row, 0);
      StepBack(ncols, row, 1);
      var node := left[row];
      ghost var j := 3;
      while node != row
        invariant Valid() && 0 <= j <= 3 && node == Step(ncols, row, j)
        invariant fs[j] == Frame(Current(), ring, cols)
        decreases j
      {
        StepCycle(ncols, row, j);
        ChainAt(Layout(), row, fs, j - 1);
        UncoverMate(row, node, fs, j);
        node := left[node];
        j := j - 1;
      }
      StepCycle(ncols, row, j);
    }

    /** One step of the uncovering walk: uncover the column of `node`, the
        j-th node of the row, which takes the views back one frame; the node
        to its left is the one before it in the row. */
    method UncoverMate(row: int, node: int, ghost fs: seq<Frame>, ghost j: nat)
      requires Valid() && IsData(Layout(), row)
      requires |fs| == 4 && 1 <= j <= 3 && node == Step(ncols, row, j)
      requires fs[j] == Frame(Current(), ring, cols)
      requires CoverStepOf(Layout(), fs[j - 1], fs[j], MateCol(Layout(), row, j))
      modifies this`left, this`right, this`up, this`down, this`count, this`ring, this`cols
      ensures Valid() && fs[j - 1] == Frame(Current(), ring, cols)
      ensures left[node] == Step(ncols, row, j - 1)
    {
      ghost var sh, F := Layout(), fs[j - 1];
      StepRange(sh, row, j);
      UncoverColumn(parent[node], F.s, F.ring, F.cols);
      RowLeftAt(sh, Current(), ring, cols, row, j);
    }

    /** dlx_solve_impl: Algorithm X.  On an empty root list it reports
        success at once.  Otherwise it covers the chosen column and tries
        each of its rows in turn, without stopping at the first success:
        while the matrix is not yet solved a row is pushed before the
        recursive call and popped after it unless the call solved the
        matrix.  It returns the solved flag.  The torus and its views
        come back as they were. */
    method Search(sol: seq<int>) returns (found: bool, sol': seq<int>)
      requires Valid()
      modifies this`left, this`right, this`up, this`down, this`count, this`ring, this`cols, this`solved
      ensures Current() == old(Current()) && ring == old(ring) && cols == old(cols)
      ensures old(solved) ==> solved
      ensures found <==> old(ring) == [] || solved
      ensures old(solved) || !found ==> sol' == sol
      ensures found && !old(solved) ==>
                |sol| <= |sol'| && sol'[..|sol|] == sol && ExactCover(Layout(), sol'[|sol|..], old(ring))
      decreases |ring|, 2
    {
      ghost var sh := Layout();
      RingEmpty(sh, Current(), ring);
      if right[0] == 0 {
        assert sol[|sol|..] == [];
        return true, sol;
      }
      var c := ChooseMinLengthColumn();
      ghost var S0, ring0, cols0 := Current(), ring, cols;
      CoverChosen(c);
      sol' := TryRows(c, sol, ring0);
      UncoverColumn(c, S0, ring0, cols0);
      found := solved;
    }

    /** The cover_column call of dlx_solve_impl on the chosen column c:
        c leaves the root's list, keeps its own rows, and each of those
        rows has all four of its headers live before the cover. */
    method CoverChosen(c: int)
      requires Valid() && c in ring
      modifies this`left, this`right, this`up, this`down, this`count, this`ring, this`cols
      ensures Valid() && 1 <= c <= ncols && |ring| < |old(ring)|
      ensures Current() == CoverSnap(Layout(), old(Current()), c, old(cols[c]))
      ensures forall h :: h in ring <==> h in old(ring) && h != c
      ensures ColumnOK(Layout(), Current(), cols, c)
      ensures forall i :: 0 <= i < |cols[c]| ==> RowOf(Layout(), cols[c][i], c, old(ring))
    {
      ghost var sh, S0, ring0, cols0 := Layout(), Current(), ring, cols;
      ghost var vl := cols[c];
      ColumnFacts(sh, S0, ring0, cols0, c);
      ghost var tr := Trace(ncols, vl);
      TraceMissesColumn(sh, S0, ring0, cols0, c, |tr|);
      assert tr[..|tr|] == tr;
      CoverShortens(ring0, c);
      CoverColumn(c);
      assert cols[c] == vl;
      assert ColumnOK(sh, Current(), cols, c);
      forall i | 0 <= i < |vl| ensures RowOf(sh, vl[i], c, ring0) {
        RowInLiveColumn(sh, S0, ring0, cols0, c, i);
      }
    }

    /** The row loop of dlx_solve_impl over the rows of the covered
        column c, from the top down.  ring0 is the root's list before c
        was covered. */
    method TryRows(c: int, sol: seq<int>, ghost ring0: seq<int>) returns (sol': seq<int>)
      requires Valid() && 1 <= c <= ncols && ColumnOK(Layout(), Current(), cols, c)
      requires forall i :: 0 <= i < |cols[c]| ==> RowOf(Layout(), cols[c][i], c, ring0)
      requires forall h :: h in ring <==> h in ring0 && h != c
      modifies this`left, this`right, this`up, this`down, this`count, this`ring, this`cols, this`solved
      ensures Current() == old(Current()) && ring == old(ring) && cols == old(cols)
      ensures old(solved) ==> solved && sol' == sol
      ensures !solved ==> sol' == sol
      ensures solved && !old(solved) ==>
                |sol| <= |sol'| && sol'[..|sol|] == sol && ExactCover(Layout(), sol'[|sol|..], ring0)
      decreases |ring|, 1
    {
      ghost var vl := cols[c];
      CircularAnchor(Axis(down, up), c, vl);
      var row := down[c];
      ghost var i := 0;
      sol' := sol;
      while row != c
        invariant Valid() && Current() == old(Current()) && ring == old(ring) && cols == old(cols)
        invariant 0 <= i <= |vl| && row == if i < |vl| then vl[i] else c
        invariant old(solved) ==> solved && sol' == sol
        invariant !solved ==> sol' == sol
        invariant solved && !old(solved) ==>
                    |sol| <= |sol'| && sol'[..|sol|] == sol && ExactCover(Layout(), sol'[|sol|..], ring0)
        decreases |vl| - i
      {
        RowMatesLive(Layout(), row, ring0, ring, c);
        sol' := TryRow(row, sol', ring0);
        CircularAt(Axis(down, up), c, vl, i);
        row := down[row];
        i := i + 1;
      }
    }

    /** The body of the row loop of dlx_solve_impl, for one row of the
        covered column: push the row unless the matrix is solved, cover
        the row's other columns, search the rest, mark the matrix solved
        on success, pop the row unless solved, and uncover the columns
        again.  ring0 is the root's list before the column was covered. */
    method TryRow(row: int, sol: seq<int>, ghost ring0: seq<int>) returns (sol': seq<int>)
      requires Valid() && IsData(Layout(), row) && MateCol(Layout(), row, 0) !in ring
      requires forall n :: 1 <= n <= 3 ==> MateCol(Layout(), row, n) in ring
      requires forall h :: h in RowCols(Layout(), row) ==> h in ring0
      requires forall h :: h in ring <==> h in ring0 && h != MateCol(Layout(), row, 0)
      modifies this`left, this`right, this`up, this`down, this`count, this`ring, this`cols, this`solved
      ensures Current() == old(Current()) && ring == old(ring) && cols == old(cols)
      ensures old(solved) ==> solved && sol' == sol
      ensures !solved ==> sol' == sol
      ensures solved && !old(solved) ==>
                |sol| <= |sol'| && sol'[..|sol|] == sol && ExactCover(Layout(), sol'[|sol|..], ring0)
      decreases |ring|, 0
    {
      ghost var sh := Layout();
      sol' := sol;
      if !solved {
        sol' := sol' + [row];
      }
      ghost var fs := CoverRowColumns(row);
      ghost var ring3 := ring;
      var ok;
      ok, sol' := Search(sol');
      if ok {
        solved := true;
      }
      if !solved {
        sol' := sol'[..|sol'| - 1];
      }
      UncoverRowColumns(row, fs);
      if !old(solved) && solved {
        assert MateCol(sh, row, 0) in RowCols(sh, row);
        SolvedByRow(sh, sol, row, sol', ring0, ring3);
      }
    }

    /** dlx_solve: run the search on the whole matrix, starting from an
        empty solution. */
    method Solve() returns (found: bool, solution: seq<int>)
      requires Valid()
      modifies this`left, this`right, this`up, this`down, this`count, this`ring, this`cols, this`solved
      ensures Current() == old(Current()) && ring == old(ring) && cols == old(cols)
      ensures found <==> old(ring) == [] || solved
      ensures !found ==> solution == []
      ensures found && !old(solved) ==> ExactCover(Layout(), solution, old(ring))
    {
      found, solution := Search([]);
      assert solution[0..] == solution;
    }
  }
}
