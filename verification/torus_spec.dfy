/** The dancing-links torus as values.

    The matrix lives in an arena of nodes numbered from 0.  Node 0 is the
    root, nodes 1..ncols are the headers of constraint columns
    0..ncols-1, and every later group of four consecutive nodes is one
    possibility row.  A `Snap` holds what cover and uncover change: the
    horizontal axis (right, left), the vertical axis (down, up) and the
    count of every header.  A `Shape` holds what never changes once the
    matrix is built: the number of columns and the header (parent) of
    every node.

    The invariant `WellFormed` is stated against two ghost views: `ring`,
    the live headers in the root's list in order, and `cols`, for every
    header the data nodes of its vertical list from top to bottom. */
module TorusSpec {
  import opened Links

  /** NULL */
  const Null: int := -1

  datatype Snap = Snap(h: Axis, v: Axis, count: seq<int>)

  datatype Shape = Shape(ncols: nat, colOf: seq<int>)

  // ---------------------------------------------------------------------
  // Rows of four

  /** Position of a data node within its row. */
  function Slot(ncols: nat, x: int): int {
    (x - ncols - 1) % 4
  }

  /** The node n places to the right of data node x in its row. */
  function Step(ncols: nat, x: int, n: nat): int {
    Base(ncols, x) + (Slot(ncols, x) + n) % 4
  }

  /** The first node of the row of data node x. */
  function Base(ncols: nat, x: int): int {
    x - Slot(ncols, x)
  }

  predicate IsData(sh: Shape, x: int) {
    sh.ncols < x < |sh.colOf|
  }

  /** The header of the n-th node to the right of x, or Null outside the arena. */
  function MateCol(sh: Shape, x: int, n: nat): int {
    var y := Step(sh.ncols, x, n);
    if 0 <= y < |sh.colOf| then sh.colOf[y] else Null
  }

  /** The headers of x and of the j nodes to its right. */
  function Taken(sh: Shape, x: int, j: nat): set<int> {
    set n | 0 <= n <= j :: MateCol(sh, x, n)
  }

  /** The columns a possibility row covers. */
  function RowCols(sh: Shape, x: int): set<int> {
    Taken(sh, x, 3)
  }

  lemma StepSlot(ncols: nat, x: int, n: nat)
    ensures Slot(ncols, Step(ncols, x, n)) == (Slot(ncols, x) + n) % 4
    ensures Base(ncols, Step(ncols, x, n)) == Base(ncols, x)
  {
  }

  /** Moving a then b places is moving a + b places. */
  lemma StepStep(ncols: nat, x: int, a: nat, b: nat)
    ensures Step(ncols, Step(ncols, x, a), b) == Step(ncols, x, a + b)
  {
    StepSlot(ncols, x, a);
  }

  /** Three steps on from j steps on is j - 1 steps on. */
  lemma StepLeft(ncols: nat, x: int, j: nat)
    requires 1 <= j
    ensures Step(ncols, Step(ncols, x, j), 3) == Step(ncols, x, j - 1)
  {
    StepStep(ncols, x, j, 3);
    StepBack(ncols, x, j);
  }

  /** A row is a cycle of exactly four nodes. */
  lemma StepSelf(ncols: nat, x: int, n: nat)
    ensures Step(ncols, x, n) == x <==> n % 4 == 0
  {
  }

  /** Zero or four steps come back to x; one to three steps do not. */
  lemma StepCycle(ncols: nat, x: int, n: nat)
    ensures (n == 0 || n == 4) ==> Step(ncols, x, n) == x
    ensures 1 <= n <= 3 ==> Step(ncols, x, n) != x
  {
  }

  /** Three steps on is one step back. */
  lemma StepBack(ncols: nat, x: int, n: nat)
    requires 1 <= n
    ensures Step(ncols, x, n + 3) == Step(ncols, x, n - 1)
  {
  }

  lemma StepRange(sh: Shape, x: int, n: nat)
    requires (|sh.colOf| - sh.ncols - 1) % 4 == 0 && IsData(sh, x)
    ensures IsData(sh, Step(sh.ncols, x, n))
  {
  }

  /** Two nodes of the same row are a few steps apart. */
  lemma SameRow(ncols: nat, x: int, y: int)
    ensures Base(ncols, x) == Base(ncols, y) ==> y == Step(ncols, x, (Slot(ncols, y) - Slot(ncols, x)) % 4)
  {
  }

  // ---------------------------------------------------------------------
  // The invariant

  /** The static layout: headers have no parent, every data node has a
      header, and the four nodes of a row sit in four different columns. */
  ghost predicate ShapeOK(sh: Shape) {
    sh.ncols < |sh.colOf| && (|sh.colOf| - sh.ncols - 1) % 4 == 0 &&
    (forall x :: 0 <= x <= sh.ncols ==> sh.colOf[x] == Null) &&
    (forall x :: sh.ncols < x < |sh.colOf| ==> 1 <= sh.colOf[x] <= sh.ncols) &&
    (forall x, n :: sh.ncols < x < |sh.colOf| && 1 <= n <= 3 ==> MateCol(sh, x, n) != sh.colOf[x])
  }

  ghost predicate Sized(sh: Shape, S: Snap) {
    |S.h.next| == |sh.colOf| && |S.h.prev| == |sh.colOf| &&
    |S.v.next| == |sh.colOf| && |S.v.prev| == |sh.colOf| && |S.count| == |sh.colOf|
  }

  /** The root's list runs through the live headers in order. */
  ghost predicate RingOK(sh: Shape, S: Snap, ring: seq<int>) {
    Circular(S.h, [0] + ring) && forall i :: 0 <= i < |ring| ==> 1 <= ring[i] <= sh.ncols
  }

  /** Header h's vertical list runs through cols[h], whose nodes all have
      h as parent, and h's count is the length of that list. */
  ghost predicate ColumnOK(sh: Shape, S: Snap, cols: seq<seq<int>>, h: int)
    requires 0 <= h < |cols| && h < |S.count|
  {
    Circular(S.v, [h] + cols[h]) && S.count[h] == |cols[h]| &&
    forall i :: 0 <= i < |cols[h]| ==> IsData(sh, cols[h][i]) && sh.colOf[cols[h][i]] == h
  }

  ghost predicate ColumnsOK(sh: Shape, S: Snap, cols: seq<seq<int>>) {
    |cols| == sh.ncols + 1 && sh.ncols < |S.count| &&
    forall h :: 1 <= h <= sh.ncols ==> ColumnOK(sh, S, cols, h)
  }

  /** Data nodes keep their row links: right is one step on, left one back. */
  ghost predicate RowLinks(sh: Shape, S: Snap)
    requires Sized(sh, S)
  {
    forall x :: sh.ncols < x < |sh.colOf| ==>
      S.h.next[x] == Step(sh.ncols, x, 1) && S.h.prev[x] == Step(sh.ncols, x, 3)
  }

  /** Node y is still in the vertical list of its header, which is live. */
  ghost predicate MateLive(sh: Shape, ring: seq<int>, cols: seq<seq<int>>, y: int)
    requires |cols| == sh.ncols + 1
  {
    0 <= y < |sh.colOf| && 1 <= sh.colOf[y] <= sh.ncols &&
    sh.colOf[y] in ring && y in cols[sh.colOf[y]]
  }

  ghost predicate RowLive(sh: Shape, ring: seq<int>, cols: seq<seq<int>>, x: int)
    requires |cols| == sh.ncols + 1
  {
    forall n :: 0 <= n < 4 ==> MateLive(sh, ring, cols, Step(sh.ncols, x, n))
  }

  /** Node x hangs in the list of live header h. */
  ghost predicate Hangs(ring: seq<int>, cols: seq<seq<int>>, h: int, x: int) {
    0 <= h < |cols| && h in ring && x in cols[h]
  }

  /** A row still hanging in a live column hangs, whole, in live columns.
      (Stated through `Hangs` so that the facts it gives do not set it
      off again.) */
  ghost predicate LiveRows(sh: Shape, ring: seq<int>, cols: seq<seq<int>>)
    requires |cols| == sh.ncols + 1
  {
    forall h, x :: Hangs(ring, cols, h, x) ==> RowLive(sh, ring, cols, x)
  }

  ghost predicate WellFormed(sh: Shape, S: Snap, ring: seq<int>, cols: seq<seq<int>>) {
    ShapeOK(sh) && Sized(sh, S) && RingOK(sh, S, ring) && ColumnsOK(sh, S, cols) &&
    RowLinks(sh, S) && LiveRows(sh, ring, cols)
  }

  // ---------------------------------------------------------------------
  // Cover and uncover as functions

  /** Cutting data node y out of its column, as cover does for every node
      of a removed row: y.up.down = y.down; y.down.up = y.up; count--. */
  function Unlink(sh: Shape, S: Snap, y: int): Snap {
    if 0 <= y < |sh.colOf| && 0 <= sh.colOf[y] < |S.count| then
      Snap(S.h, SpliceOut(S.v, y), S.count[sh.colOf[y] := S.count[sh.colOf[y]] - 1])
    else S
  }

  /** Putting y back, as uncover does: count++; y.down.up = y; y.up.down = y. */
  function Relink(sh: Shape, S: Snap, y: int): Snap {
    if 0 <= y < |sh.colOf| && 0 <= sh.colOf[y] < |S.count| then
      Snap(S.h, SpliceIn(S.v, y), S.count[sh.colOf[y] := S.count[sh.colOf[y]] + 1])
    else S
  }

  /** Unlinking the nodes of ys, first to last. */
  function RemoveAll(sh: Shape, S: Snap, ys: seq<int>): Snap {
    if ys == [] then S else Unlink(sh, RemoveAll(sh, S, ys[..|ys| - 1]), ys[|ys| - 1])
  }

  /** Relinking the nodes of ys, last to first. */
  function RestoreAll(sh: Shape, S: Snap, ys: seq<int>): Snap
    decreases |ys|
  {
    if ys == [] then S else RestoreAll(sh, Relink(sh, S, ys[|ys| - 1]), ys[..|ys| - 1])
  }

  /** The nodes cover unlinks, in order: for each row of the column, top to
      bottom, the three other nodes of the row, left to right. */
  function Trace(ncols: nat, vl: seq<int>): seq<int> {
    seq(3 * |vl|, k requires 0 <= k < 3 * |vl| => Step(ncols, vl[k / 3], k % 3 + 1))
  }

  /** Cutting header c out of the root's list. */
  function Cut(S: Snap, c: int): Snap {
    Snap(SpliceOut(S.h, c), S.v, S.count)
  }

  /** The state after cover_column(c), where vl is c's vertical list. */
  function CoverSnap(sh: Shape, S: Snap, c: int, vl: seq<int>): Snap {
    RemoveAll(sh, Cut(S, c), Trace(sh.ncols, vl))
  }

  /** The state after uncover_column(c), where vl is c's vertical list. */
  function UncoverSnap(sh: Shape, S: Snap, c: int, vl: seq<int>): Snap {
    var V := RestoreAll(sh, S, Trace(sh.ncols, vl));
    Snap(SpliceIn(V.h, c), V.v, V.count)
  }

  /** Every vertical list with the nodes ys taken out. */
  function Drop(cols: seq<seq<int>>, ys: seq<int>): seq<seq<int>> {
    seq(|cols|, h requires 0 <= h < |cols| => Except(cols[h], ys))
  }

  // ---------------------------------------------------------------------
  // Exact covers

  /** sol is a set of possibility rows that covers every column of ring
      exactly once and no column outside it. */
  ghost predicate ExactCover(sh: Shape, sol: seq<int>, ring: seq<int>) {
    (forall i :: 0 <= i < |sol| ==> IsData(sh, sol[i])) &&
    (forall i, h :: 0 <= i < |sol| && h in RowCols(sh, sol[i]) ==> h in ring) &&
    (forall i, j :: 0 <= i < j < |sol| ==> RowCols(sh, sol[i]) !! RowCols(sh, sol[j])) &&
    (forall h :: h in ring ==> exists i :: 0 <= i < |sol| && h in RowCols(sh, sol[i]))
  }

  // ---------------------------------------------------------------------
  // Choosing a column

  /** The counts of the live headers, in ring order. */
  ghost function RingCounts(S: Snap, ring: seq<int>): seq<int> {
    seq(|ring|, i requires 0 <= i < |ring| =>
      if 0 <= ring[i] < |S.count| then S.count[ring[i]] else 0)
  }

  /** Position p holds the first smallest value of cs. */
  ghost predicate FirstMinimum(cs: seq<int>, p: int) {
    0 <= p < |cs| &&
    (forall j :: 0 <= j < |cs| ==> cs[p] <= cs[j]) &&
    (forall j :: 0 <= j < p ==> cs[p] < cs[j])
  }

  /** There is only one first minimum. */
  lemma MinimumUnique(cs: seq<int>, p: int, q: int)
    requires FirstMinimum(cs, p) && FirstMinimum(cs, q)
    ensures p == q
  {
    var a, b := cs[p], cs[q];
    assert p < q ==> b < a;
    assert q < p ==> a < b;
  }
}
