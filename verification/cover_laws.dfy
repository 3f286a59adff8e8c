/** What cover_column and uncover_column do to a well-formed torus:
    cover keeps the invariant with the column and the rows that hang in it
    taken out, and uncover right after cover gives back the very same
    links and counts. */
module CoverLaws {
  import opened Links
  import opened TorusSpec

  // ---------------------------------------------------------------------
  // The trace of a cover

  lemma TraceAt(ncols: nat, vl: seq<int>, i: int, q: int)
    requires 0 <= i < |vl| && 1 <= q <= 3
    ensures 3 * i + q - 1 < |Trace(ncols, vl)|
    ensures Trace(ncols, vl)[3 * i + q - 1] == Step(ncols, vl[i], q)
  {
    var k := 3 * i + q - 1;
    assert k / 3 == i && k % 3 == q - 1;
  }

  /** Some row of vl starts at b. */
  ghost predicate HangsIn(ncols: nat, b: int, vl: seq<int>) {
    exists i :: 0 <= i < |vl| && b == Base(ncols, vl[i])
  }

  lemma HangsInMember(ncols: nat, y: int, vl: seq<int>)
    ensures y in vl ==> HangsIn(ncols, Base(ncols, y), vl)
  {
    if y in vl {
      var i :| 0 <= i < |vl| && vl[i] == y;
    }
  }

  /** Two nodes of one column that start the same row are the same node. */
  lemma ColumnBases(sh: Shape, x: int, y: int)
    requires ShapeOK(sh) && IsData(sh, x) && IsData(sh, y) && sh.colOf[x] == sh.colOf[y]
    ensures Base(sh.ncols, x) == Base(sh.ncols, y) ==> x == y
  {
    var m := (Slot(sh.ncols, y) - Slot(sh.ncols, x)) % 4;
    SameRow(sh.ncols, x, y);
    assert 1 <= m <= 3 ==> MateCol(sh, x, m) != sh.colOf[x];
  }

  /** The nodes of vl are data nodes with header c. */
  ghost predicate ColumnNodes(sh: Shape, vl: seq<int>, c: int) {
    forall i :: 0 <= i < |vl| ==> IsData(sh, vl[i]) && sh.colOf[vl[i]] == c
  }

  /** The facts about c that the invariant gives. */
  lemma ColumnFacts(sh: Shape, S: Snap, ring: seq<int>, cols: seq<seq<int>>, c: int)
    requires WellFormed(sh, S, ring, cols) && c in ring
    ensures 1 <= c <= sh.ncols
    ensures ColumnNodes(sh, cols[c], c) && Distinct(cols[c])
  {
    var p :| 0 <= p < |ring| && ring[p] == c;
    assert ColumnOK(sh, S, cols, c);
    var s := [c] + cols[c];
    forall i, j | 0 <= i < j < |cols[c]| ensures cols[c][i] != cols[c][j] {
      assert s[i + 1] == cols[c][i] && s[j + 1] == cols[c][j];
    }
  }

  /** A node is in the trace of c exactly when it is not in column c but
      in a row that hangs in c. */
  lemma TraceMembers(sh: Shape, vl: seq<int>, c: int, x: int)
    requires ShapeOK(sh) && ColumnNodes(sh, vl, c) && IsData(sh, x)
    ensures x in Trace(sh.ncols, vl) <==>
              sh.colOf[x] != c && HangsIn(sh.ncols, Base(sh.ncols, x), vl)
  {
    var tr := Trace(sh.ncols, vl);
    if x in tr {
      var k :| 0 <= k < |tr| && tr[k] == x;
      var i, q := k / 3, k % 3 + 1;
      StepSlot(sh.ncols, vl[i], q);
      assert MateCol(sh, vl[i], q) != sh.colOf[vl[i]];
    }
    if sh.colOf[x] != c && HangsIn(sh.ncols, Base(sh.ncols, x), vl) {
      var i :| 0 <= i < |vl| && Base(sh.ncols, x) == Base(sh.ncols, vl[i]);
      var m := (Slot(sh.ncols, x) - Slot(sh.ncols, vl[i])) % 4;
      SameRow(sh.ncols, vl[i], x);
      assert m != 0;
      TraceAt(sh.ncols, vl, i, m);
    }
  }

  /** Different steps from different rows of column c, or different
      steps from one row, reach different nodes. */
  lemma StepsDistinct(sh: Shape, vl: seq<int>, c: int, i: int, p: nat, j: int, q: nat)
    requires ShapeOK(sh) && ColumnNodes(sh, vl, c) && Distinct(vl)
    requires 0 <= i < |vl| && 0 <= j < |vl| && 1 <= p <= 3 && 1 <= q <= 3 && (i, p) != (j, q)
    ensures Step(sh.ncols, vl[i], p) != Step(sh.ncols, vl[j], q)
  {
    StepSlot(sh.ncols, vl[i], p);
    StepSlot(sh.ncols, vl[j], q);
    if i != j {
      ColumnBases(sh, vl[i], vl[j]);
    }
  }

  /** The trace lists every node once. */
  lemma TraceDistinct(sh: Shape, vl: seq<int>, c: int)
    requires ShapeOK(sh) && ColumnNodes(sh, vl, c) && Distinct(vl)
    ensures Distinct(Trace(sh.ncols, vl))
  {
    var tr := Trace(sh.ncols, vl);
    forall a, b | 0 <= a < b < |tr| ensures tr[a] != tr[b] {
      var i, p := a / 3, a % 3 + 1;
      var j, q := b / 3, b % 3 + 1;
      TraceAt(sh.ncols, vl, i, p);
      TraceAt(sh.ncols, vl, j, q);
      StepsDistinct(sh, vl, c, i, p, j, q);
    }
  }

  /** Every node of the trace is a live node of a live column other than c. */
  lemma TraceFacts(sh: Shape, S: Snap, ring: seq<int>, cols: seq<seq<int>>, c: int, k: int)
    requires WellFormed(sh, S, ring, cols) && c in ring
    requires 0 <= k < |Trace(sh.ncols, cols[c])|
    ensures var y := Trace(sh.ncols, cols[c])[k];
            IsData(sh, y) && sh.colOf[y] != c && 1 <= sh.colOf[y] <= sh.ncols &&
            sh.colOf[y] in ring && y in cols[sh.colOf[y]] &&
            y !in Trace(sh.ncols, cols[c])[..k]
  {
    ColumnFacts(sh, S, ring, cols, c);
    var vl := cols[c];
    var tr := Trace(sh.ncols, vl);
    var i, q := k / 3, k % 3 + 1;
    assert Hangs(ring, cols, c, vl[i]);
    assert RowLive(sh, ring, cols, vl[i]);
    assert MateLive(sh, ring, cols, Step(sh.ncols, vl[i], q));
    assert MateCol(sh, vl[i], q) != sh.colOf[vl[i]];
    TraceDistinct(sh, vl, c);
    assert forall j :: 0 <= j < k ==> tr[j] != tr[k];
  }

  /** No node of column c is in its trace. */
  lemma TraceMissesColumn(sh: Shape, S: Snap, ring: seq<int>, cols: seq<seq<int>>, c: int, k: int)
    requires WellFormed(sh, S, ring, cols) && c in ring
    requires 0 <= k <= |Trace(sh.ncols, cols[c])|
    ensures Except(cols[c], Trace(sh.ncols, cols[c])[..k]) == cols[c]
  {
    ColumnFacts(sh, S, ring, cols, c);
    var tr := Trace(sh.ncols, cols[c]);
    forall i | 0 <= i < |cols[c]| ensures cols[c][i] !in tr[..k] {
      forall j | 0 <= j < k ensures tr[j] != cols[c][i] {
        TraceFacts(sh, S, ring, cols, c, j);
      }
    }
    ExceptNone(cols[c], tr[..k]);
  }

  // ---------------------------------------------------------------------
  // Unlinking one node

  /** The vertical lists of the invariant, as lists: column h lists
      distinct data nodes with header h. */
  ghost predicate ColsShape(sh: Shape, cols: seq<seq<int>>) {
    |cols| == sh.ncols + 1 &&
    forall h :: 1 <= h <= sh.ncols ==> ColumnNodes(sh, cols[h], h) && Distinct(cols[h])
  }

  lemma ColumnsShape(sh: Shape, S: Snap, cols: seq<seq<int>>)
    requires ColumnsOK(sh, S, cols)
    ensures ColsShape(sh, cols)
  {
    forall h | 1 <= h <= sh.ncols ensures ColumnNodes(sh, cols[h], h) && Distinct(cols[h]) {
      assert ColumnOK(sh, S, cols, h);
      var s := [h] + cols[h];
      forall i, j | 0 <= i < j < |cols[h]| ensures cols[h][i] != cols[h][j] {
        assert s[i + 1] == cols[h][i] && s[j + 1] == cols[h][j];
      }
    }
  }

  /** Unlinking y, a node still in its column, from a state whose columns
      are the lists cols less xs leaves every column a circular list with
      y taken out too. */
  lemma UnlinkKeepsColumns(sh: Shape, cols: seq<seq<int>>, P: Snap, xs: seq<int>, y: int)
    requires ShapeOK(sh) && ColsShape(sh, cols) && Sized(sh, P)
    requires ColumnsOK(sh, P, Drop(cols, xs))
    requires IsData(sh, y) && y in cols[sh.colOf[y]] && y !in xs
    ensures Linked(P.v, y)
    ensures var Q := Unlink(sh, P, y);
            Sized(sh, Q) && Q.h == P.h && ColumnsOK(sh, Q, Drop(cols, xs + [y]))
  {
    var hy := sh.colOf[y];
    var list := Drop(cols, xs)[hy];
    ExceptMembers(cols[hy], xs, y);
    var p :| 0 <= p < |list| && list[p] == y;
    assert ColumnOK(sh, P, Drop(cols, xs), hy);
    assert ([hy] + list)[p + 1] == y;
    CircularLinked(P.v, [hy] + list, p + 1);
    var Q := Unlink(sh, P, y);
    forall h | 1 <= h <= sh.ncols ensures ColumnOK(sh, Q, Drop(cols, xs + [y]), h) {
      if h == hy {
        UnlinkOwnColumn(sh, cols, P, xs, y, p);
      } else {
        UnlinkOtherColumn(sh, cols, P, xs, y, p, h);
      }
    }
  }

  lemma UnlinkOwnColumn(sh: Shape, cols: seq<seq<int>>, P: Snap, xs: seq<int>, y: int, p: int)
    requires ShapeOK(sh) && ColsShape(sh, cols) && Sized(sh, P)
    requires ColumnsOK(sh, P, Drop(cols, xs))
    requires IsData(sh, y)
    requires var list := Drop(cols, xs)[sh.colOf[y]];
             0 <= p < |list| && list[p] == y
    ensures ColumnOK(sh, Unlink(sh, P, y), Drop(cols, xs + [y]), sh.colOf[y])
  {
    var hy := sh.colOf[y];
    var D, D' := Drop(cols, xs), Drop(cols, xs + [y]);
    var s := [hy] + D[hy];
    assert ColumnOK(sh, P, D, hy);
    assert s[p + 1] == y;
    SpliceOutCircular(P.v, s, p + 1);
    ExceptSnoc(cols[hy], xs, y, p);
    var Q := Unlink(sh, P, y);
    assert Q.v == SpliceOut(P.v, y);
    assert s[..p + 1] + s[p + 2..] == [hy] + D'[hy];
    forall i | 0 <= i < |D'[hy]| ensures IsData(sh, D'[hy][i]) && sh.colOf[D'[hy][i]] == hy {
      ExceptMembers(cols[hy], xs + [y], D'[hy][i]);
    }
  }

  lemma UnlinkOtherColumn(sh: Shape, cols: seq<seq<int>>, P: Snap, xs: seq<int>, y: int, p: int, h: int)
    requires ShapeOK(sh) && ColsShape(sh, cols) && Sized(sh, P)
    requires ColumnsOK(sh, P, Drop(cols, xs))
    requires IsData(sh, y) && 1 <= h <= sh.ncols && h != sh.colOf[y]
    requires var list := Drop(cols, xs)[sh.colOf[y]];
             0 <= p < |list| && list[p] == y
    ensures ColumnOK(sh, Unlink(sh, P, y), Drop(cols, xs + [y]), h)
  {
    var hy := sh.colOf[y];
    var D, D' := Drop(cols, xs), Drop(cols, xs + [y]);
    var s := [hy] + D[hy];
    var t := [h] + D[h];
    assert ColumnOK(sh, P, D, hy) && ColumnOK(sh, P, D, h);
    assert s[p + 1] == y;
    CircularLinked(P.v, s, p + 1);
    var Q := Unlink(sh, P, y);
    assert y !in cols[h];
    ExceptSame(cols[h], xs, y);
    assert D'[h] == D[h];
    var before, after := P.v.prev[y], P.v.next[y];
    assert before == s[p];
    assert after == s[if p + 2 == |s| then 0 else p + 2];
    assert before == hy || (IsData(sh, before) && sh.colOf[before] == hy);
    assert after == hy || (IsData(sh, after) && sh.colOf[after] == hy);
    forall i | 0 <= i < |t| ensures Q.v.next[t[i]] == P.v.next[t[i]] && Q.v.prev[t[i]] == P.v.prev[t[i]] {
      assert t[i] == h || (IsData(sh, t[i]) && sh.colOf[t[i]] == h);
    }
    CircularFrame(P.v, Q.v, t);
  }

  // ---------------------------------------------------------------------
  // Cover, one trace node at a time

  /** After cutting c out of the root's list and unlinking the first k
      nodes of the trace, every column is a circular list holding its old
      nodes minus those unlinked. */
  ghost predicate PrefixOK(sh: Shape, S: Snap, cols: seq<seq<int>>, c: int, k: int)
    requires 0 <= c < |cols| && 0 <= k <= |Trace(sh.ncols, cols[c])|
  {
    var tr := Trace(sh.ncols, cols[c]);
    var P := RemoveAll(sh, Cut(S, c), tr[..k]);
    Sized(sh, P) && P.h == SpliceOut(S.h, c) && ColumnsOK(sh, P, Drop(cols, tr[..k]))
  }

  lemma CoverStep(sh: Shape, S: Snap, ring: seq<int>, cols: seq<seq<int>>, c: int, k: int)
    requires WellFormed(sh, S, ring, cols) && c in ring
    requires 0 <= k < |Trace(sh.ncols, cols[c])| && PrefixOK(sh, S, cols, c, k)
    ensures var tr := Trace(sh.ncols, cols[c]);
            Linked(RemoveAll(sh, Cut(S, c), tr[..k]).v, tr[k])
    ensures PrefixOK(sh, S, cols, c, k + 1)
  {
    var tr := Trace(sh.ncols, cols[c]);
    TraceFacts(sh, S, ring, cols, c, k);
    ColumnsShape(sh, S, cols);
    UnlinkKeepsColumns(sh, cols, RemoveAll(sh, Cut(S, c), tr[..k]), tr[..k], tr[k]);
    assert tr[..k + 1] == tr[..k] + [tr[k]];
    assert tr[..k + 1][..k] == tr[..k];
  }

  /** Cover reaches every prefix of its trace in good order, and the next
      node to unlink is linked into its column. */
  lemma {:induction false} CoverPrefix(sh: Shape, S: Snap, ring: seq<int>, cols: seq<seq<int>>, c: int, k: int)
    requires WellFormed(sh, S, ring, cols) && c in ring
    requires 0 <= k <= |Trace(sh.ncols, cols[c])|
    ensures PrefixOK(sh, S, cols, c, k)
    ensures var tr := Trace(sh.ncols, cols[c]);
            k < |tr| ==> Linked(RemoveAll(sh, Cut(S, c), tr[..k]).v, tr[k])
  {
    var tr := Trace(sh.ncols, cols[c]);
    if k == 0 {
      assert tr[..0] == [];
      forall h | 0 <= h < |cols| ensures Drop(cols, [])[h] == cols[h] {
        ExceptEmpty(cols[h]);
      }
      assert Drop(cols, []) == cols;
      forall h | 1 <= h <= sh.ncols ensures ColumnOK(sh, Cut(S, c), cols, h) {
        assert ColumnOK(sh, S, cols, h);
      }
    } else {
      CoverPrefix(sh, S, ring, cols, c, k - 1);
      CoverStep(sh, S, ring, cols, c, k - 1);
    }
    if k < |tr| {
      CoverStep(sh, S, ring, cols, c, k);
    }
  }

  /** Cutting header c out of the root's list keeps the list circular
      without c and leaves the links of every data node alone. */
  lemma CutRing(sh: Shape, S: Snap, ring: seq<int>, c: int)
    requires Sized(sh, S) && RingOK(sh, S, ring) && c in ring
    ensures Linked(S.h, c)
    ensures RingOK(sh, Cut(S, c), Except(ring, [c]))
    ensures forall x :: sh.ncols < x < |sh.colOf| ==>
              Cut(S, c).h.next[x] == S.h.next[x] && Cut(S, c).h.prev[x] == S.h.prev[x]
  {
    var p :| 0 <= p < |ring| && ring[p] == c;
    CutRingList(S.h, ring, p);
    forall i | 0 <= i < |Except(ring, [c])| ensures 1 <= Except(ring, [c])[i] <= sh.ncols {
      ExceptMembers(ring, [c], Except(ring, [c])[i]);
    }
    var s := [0] + ring;
    assert s[p + 1] == c;
    CircularLinked(S.h, s, p + 1);
    var before, after := S.h.prev[c], S.h.next[c];
    assert before == s[p];
    assert after == s[if p + 2 == |s| then 0 else p + 2];
    assert before <= sh.ncols && after <= sh.ncols;
  }

  lemma CutRingList(a: Axis, ring: seq<int>, p: int)
    requires Circular(a, [0] + ring) && 0 <= p < |ring|
    ensures Circular(SpliceOut(a, ring[p]), [0] + Except(ring, [ring[p]]))
  {
    var s := [0] + ring;
    assert s[p + 1] == ring[p];
    SpliceOutCircular(a, s, p + 1);
    CircularTail(a, 0, ring);
    RemoveOne(ring, p);
    ConsCut(ring, p);
  }

  lemma ConsCut(ring: seq<int>, p: int)
    requires 0 <= p < |ring|
    ensures ([0] + ring)[..p + 1] + ([0] + ring)[p + 2..] == [0] + (ring[..p] + ring[p + 1..])
  {
  }

  /** Taking out the element at p of a distinct list. */
  lemma RemoveOne(s: seq<int>, p: int)
    requires Distinct(s) && 0 <= p < |s|
    ensures Except(s, [s[p]]) == s[..p] + s[p + 1..]
  {
    ExceptEmpty(s);
    ExceptSnoc(s, [], s[p], p);
    assert [] + [s[p]] == [s[p]];
  }

  /** The list after the anchor of a circular list is distinct. */
  lemma CircularTail(a: Axis, h: int, t: seq<int>)
    requires Circular(a, [h] + t)
    ensures Distinct(t)
  {
    var s := [h] + t;
    forall i, j | 0 <= i < j < |t| ensures t[i] != t[j] {
      assert s[i + 1] == t[i] && s[j + 1] == t[j];
    }
  }

  /** After cover, a row that still hangs in a live column hangs, whole,
      in live columns. */
  lemma CoverLive(sh: Shape, S: Snap, ring: seq<int>, cols: seq<seq<int>>, c: int)
    requires WellFormed(sh, S, ring, cols) && c in ring
    ensures LiveRows(sh, Except(ring, [c]), Drop(cols, Trace(sh.ncols, cols[c])))
  {
    var vl := cols[c];
    var tr := Trace(sh.ncols, vl);
    var ring', D' := Except(ring, [c]), Drop(cols, tr);
    ColumnFacts(sh, S, ring, cols, c);
    ColumnsShape(sh, S, cols);
    forall h, x | Hangs(ring', D', h, x) ensures RowLive(sh, ring', D', x) {
      ExceptMembers(ring, [c], h);
      ExceptMembers(cols[h], tr, x);
      assert Hangs(ring, cols, h, x);
      assert RowLive(sh, ring, cols, x);
      assert IsData(sh, x) && sh.colOf[x] == h;
      TraceMembers(sh, vl, c, x);
      forall n | 0 <= n < 4 ensures MateLive(sh, ring', D', Step(sh.ncols, x, n)) {
        var y := Step(sh.ncols, x, n);
        assert MateLive(sh, ring, cols, y);
        var hy := sh.colOf[y];
        StepSlot(sh.ncols, x, n);
        StepRange(sh, x, n);
        TraceMembers(sh, vl, c, y);
        HangsInMember(sh.ncols, y, vl);
        assert hy != c;
        ExceptMembers(ring, [c], hy);
        ExceptMembers(cols[hy], tr, y);
      }
    }
  }

  /** cover_column keeps the invariant: the root's list loses c, and every
      vertical list loses the nodes of the rows that hang in c. */
  lemma CoverWellFormed(sh: Shape, S: Snap, ring: seq<int>, cols: seq<seq<int>>, c: int)
    requires WellFormed(sh, S, ring, cols) && c in ring
    ensures WellFormed(sh, CoverSnap(sh, S, c, cols[c]), Except(ring, [c]),
                       Drop(cols, Trace(sh.ncols, cols[c])))
  {
    var tr := Trace(sh.ncols, cols[c]);
    CoverPrefix(sh, S, ring, cols, c, |tr|);
    assert tr[..|tr|] == tr;
    CutRing(sh, S, ring, c);
    CoverLive(sh, S, ring, cols, c);
  }

  // ---------------------------------------------------------------------
  // Uncover undoes cover

  /** Relinking a node right after unlinking it gives back the state. */
  lemma UnlinkRelink(sh: Shape, P: Snap, y: int)
    requires Linked(P.v, y)
    ensures Relink(sh, Unlink(sh, P, y), y) == P
  {
    SpliceInverse(P.v, y);
    var Q := Unlink(sh, P, y);
    assert Spliceable(SpliceOut(P.v, y), y);
  }

  /** Restoring, last to first, nodes that were unlinked while linked
      gives back the state before the unlinking. */
  lemma {:induction false} RestoreRemove(sh: Shape, P: Snap, ys: seq<int>)
    requires forall k :: 0 <= k < |ys| ==> Linked(RemoveAll(sh, P, ys[..k]).v, ys[k])
    ensures RestoreAll(sh, RemoveAll(sh, P, ys), ys) == P
  {
    if ys != [] {
      var n := |ys| - 1;
      var init := ys[..n];
      assert ys[..n] == init;
      UnlinkRelink(sh, RemoveAll(sh, P, init), ys[n]);
      forall k | 0 <= k < |init| ensures Linked(RemoveAll(sh, P, init[..k]).v, init[k]) {
        assert init[..k] == ys[..k];
      }
      RestoreRemove(sh, P, init);
    }
  }

  /** The inverse law: uncover_column(c) right after cover_column(c) gives
      back every link and every count. */
  lemma CoverUncover(sh: Shape, S: Snap, ring: seq<int>, cols: seq<seq<int>>, c: int)
    requires WellFormed(sh, S, ring, cols) && c in ring
    ensures UncoverSnap(sh, CoverSnap(sh, S, c, cols[c]), c, cols[c]) == S
  {
    var tr := Trace(sh.ncols, cols[c]);
    forall k | 0 <= k < |tr| ensures Linked(RemoveAll(sh, Cut(S, c), tr[..k]).v, tr[k]) {
      CoverPrefix(sh, S, ring, cols, c, k);
    }
    RestoreRemove(sh, Cut(S, c), tr);
    CutRing(sh, S, ring, c);
    SpliceInverse(S.h, c);
  }

  /** The state of cover_column(c) after cutting c and unlinking the
      first k nodes of its trace. */
  function PartialCover(sh: Shape, S: Snap, c: int, vl: seq<int>, k: int): Snap
    requires 0 <= k <= |Trace(sh.ncols, vl)|
  {
    Removed(sh, Cut(S, c), Trace(sh.ncols, vl), k)
  }

  function Removed(sh: Shape, S: Snap, ys: seq<int>, k: int): Snap
    requires 0 <= k <= |ys|
    decreases k
  {
    if k == 0 then S else Unlink(sh, Removed(sh, S, ys, k - 1), ys[k - 1])
  }

  lemma {:induction false} RemovedAll(sh: Shape, S: Snap, ys: seq<int>, k: int)
    requires 0 <= k <= |ys|
    ensures Removed(sh, S, ys, k) == RemoveAll(sh, S, ys[..k])
  {
    if k > 0 {
      RemovedAll(sh, S, ys, k - 1);
      assert ys[..k][..k - 1] == ys[..k - 1];
    }
  }

  /** While cover works through the trace, c's own vertical list stays
      as it was. */
  lemma CoverView(sh: Shape, S: Snap, ring: seq<int>, cols: seq<seq<int>>, c: int, k: int)
    requires WellFormed(sh, S, ring, cols) && c in ring
    requires 0 <= k <= |Trace(sh.ncols, cols[c])|
    ensures var P := PartialCover(sh, S, c, cols[c], k);
            Sized(sh, P) && Circular(P.v, [c] + cols[c])
  {
    var tr := Trace(sh.ncols, cols[c]);
    RemovedAll(sh, Cut(S, c), tr, k);
    ColumnFacts(sh, S, ring, cols, c);
    CoverPrefix(sh, S, ring, cols, c, k);
    TraceMissesColumn(sh, S, ring, cols, c, k);
    assert ColumnOK(sh, RemoveAll(sh, Cut(S, c), tr[..k]), Drop(cols, tr[..k]), c);
  }

  /** Unlinking nodes from their columns leaves every row list alone. */
  lemma {:induction false} RemovedRows(sh: Shape, S: Snap, ys: seq<int>, k: int)
    requires 0 <= k <= |ys|
    ensures Removed(sh, S, ys, k).h == S.h
    decreases k
  {
    if k > 0 {
      RemovedRows(sh, S, ys, k - 1);
    }
  }

  /** When cover reaches the k-th trace node, the node is in the arena,
      its header has a count, and it sits between two nodes of the arena;
      relinking it after the unlink gives back the state before. */
  lemma StepReadyAt(sh: Shape, S: Snap, ring: seq<int>, cols: seq<seq<int>>, c: int, k: int)
    requires WellFormed(sh, S, ring, cols) && c in ring
    requires 0 <= k < |Trace(sh.ncols, cols[c])|
    ensures var y := Trace(sh.ncols, cols[c])[k];
            var P := PartialCover(sh, S, c, cols[c], k);
            var Q := PartialCover(sh, S, c, cols[c], k + 1);
            0 <= y < |sh.colOf| && 0 <= sh.colOf[y] < |P.count| && Spliceable(P.v, y) &&
            0 <= sh.colOf[y] < |Q.count| && Spliceable(Q.v, y) && Relink(sh, Q, y) == P
  {
    var tr := Trace(sh.ncols, cols[c]);
    RemovedAll(sh, Cut(S, c), tr, k);
    CoverPrefix(sh, S, ring, cols, c, k);
    TraceFacts(sh, S, ring, cols, c, k);
    var P := PartialCover(sh, S, c, cols[c], k);
    UnlinkRelink(sh, P, tr[k]);
    assert Spliceable(SpliceOut(P.v, tr[k]), tr[k]);
  }

  // ---------------------------------------------------------------------
  // Cover row by row

  /** Unlinking the nodes one to j places right of x, in that order. */
  function RowOut(sh: Shape, P: Snap, x: int, j: nat): Snap {
    if j == 0 then P else Unlink(sh, RowOut(sh, P, x, j - 1), Step(sh.ncols, x, j))
  }

  /** The state of cover_column(c), begun in S, once c is cut out and the
      first i rows of its list vl are done. */
  function RowsOut(sh: Shape, S: Snap, c: int, vl: seq<int>, i: nat): Snap
    requires i <= |vl|
  {
    if i == 0 then Cut(S, c) else RowOut(sh, RowsOut(sh, S, c, vl, i - 1), vl[i - 1], 3)
  }

  lemma {:induction false} RowOutTrace(sh: Shape, S: Snap, c: int, vl: seq<int>, i: nat, j: nat)
    requires i < |vl| && j <= 3
    requires RowsOut(sh, S, c, vl, i) == PartialCover(sh, S, c, vl, 3 * i)
    ensures RowOut(sh, RowsOut(sh, S, c, vl, i), vl[i], j) == PartialCover(sh, S, c, vl, 3 * i + j)
  {
    if j > 0 {
      RowOutTrace(sh, S, c, vl, i, j - 1);
      TraceAt(sh.ncols, vl, i, j);
    }
  }

  /** Doing the rows one by one is working through the trace. */
  lemma {:induction false} RowsOutTrace(sh: Shape, S: Snap, c: int, vl: seq<int>, i: nat)
    requires i <= |vl|
    ensures RowsOut(sh, S, c, vl, i) == PartialCover(sh, S, c, vl, 3 * i)
  {
    if i > 0 {
      RowsOutTrace(sh, S, c, vl, i - 1);
      RowOutTrace(sh, S, c, vl, i - 1, 3);
    }
  }

  /** With every row done, the state is the cover, and the row lists are
      those of S with c cut out. */
  lemma CoverDone(sh: Shape, S: Snap, c: int, vl: seq<int>)
    ensures RowsOut(sh, S, c, vl, |vl|) == CoverSnap(sh, S, c, vl)
    ensures CoverSnap(sh, S, c, vl).h == SpliceOut(S.h, c)
  {
    var tr := Trace(sh.ncols, vl);
    RowsOutTrace(sh, S, c, vl, |vl|);
    RemovedAll(sh, Cut(S, c), tr, |tr|);
    RemovedRows(sh, Cut(S, c), tr, |tr|);
    assert tr[..|tr|] == tr;
  }

  /** Putting header c back into the root's list undoes cutting it out. */
  lemma HeaderBack(sh: Shape, S: Snap, ring: seq<int>, c: int)
    requires Sized(sh, S) && RingOK(sh, S, ring) && c in ring
    ensures Spliceable(Cut(S, c).h, c) && SpliceIn(Cut(S, c).h, c) == S.h
  {
    CutRing(sh, S, ring, c);
    SpliceInverse(S.h, c);
  }

  /** Cover, on row i of c's list, can unlink the node j+1 places right
      of the row's node in c: the node is in the arena, its header has a
      count, and it sits between two nodes of the arena. */
  ghost predicate StepReady(sh: Shape, S: Snap, c: int, vl: seq<int>, i: nat, j: nat)
    requires i < |vl|
  {
    var y := Step(sh.ncols, vl[i], j + 1);
    var P := RowOut(sh, RowsOut(sh, S, c, vl, i), vl[i], j);
    0 <= y < |sh.colOf| && 0 <= sh.colOf[y] < |P.count| && Spliceable(P.v, y)
  }

  /** Uncover, on row i of c's list, can relink the node j places right
      of the row's node in c after cover unlinked it, and doing so gives
      back the state from before the unlink. */
  ghost predicate UnstepReady(sh: Shape, S: Snap, c: int, vl: seq<int>, i: nat, j: nat)
    requires i < |vl| && 1 <= j
  {
    var y := Step(sh.ncols, vl[i], j);
    var Q := RowOut(sh, RowsOut(sh, S, c, vl, i), vl[i], j);
    0 <= y < |sh.colOf| && 0 <= sh.colOf[y] < |Q.count| && Spliceable(Q.v, y) &&
    Relink(sh, Q, y) == RowOut(sh, RowsOut(sh, S, c, vl, i), vl[i], j - 1)
  }

  /** c's own vertical list, between two rows of cover. */
  ghost predicate ColumnView(sh: Shape, S: Snap, c: int, vl: seq<int>, i: nat)
    requires i <= |vl|
  {
    var P := RowsOut(sh, S, c, vl, i);
    Sized(sh, P) && Circular(P.v, [c] + vl)
  }

  /** The row of x is a ring of four nodes in the horizontal axis h. */
  ghost predicate RowRing(ncols: nat, h: Axis, x: int) {
    forall n :: 0 <= n < 4 ==>
      0 <= Step(ncols, x, n) < |h.next| && 0 <= Step(ncols, x, n) < |h.prev| &&
      h.next[Step(ncols, x, n)] == Step(ncols, x, n + 1) &&
      h.prev[Step(ncols, x, n)] == Step(ncols, x, n + 3)
  }

  /** The row of a node in c's list is still a ring of four once c is
      cut out of the root's list. */
  lemma RowReady(sh: Shape, S: Snap, ring: seq<int>, cols: seq<seq<int>>, c: int, i: int)
    requires WellFormed(sh, S, ring, cols) && c in ring && 0 <= i < |cols[c]|
    ensures RowRing(sh.ncols, SpliceOut(S.h, c), cols[c][i])
  {
    ColumnFacts(sh, S, ring, cols, c);
    CutRing(sh, S, ring, c);
    var x := cols[c][i];
    forall n | 0 <= n < 4
      ensures 0 <= Step(sh.ncols, x, n) < |S.h.next| && 0 <= Step(sh.ncols, x, n) < |S.h.prev| &&
              SpliceOut(S.h, c).next[Step(sh.ncols, x, n)] == Step(sh.ncols, x, n + 1) &&
              SpliceOut(S.h, c).prev[Step(sh.ncols, x, n)] == Step(sh.ncols, x, n + 3)
    {
      StepRange(sh, x, n);
      StepStep(sh.ncols, x, n, 1);
      StepStep(sh.ncols, x, n, 3);
    }
  }

  lemma StepPlan(sh: Shape, S: Snap, ring: seq<int>, cols: seq<seq<int>>, c: int, i: nat, j: nat)
    requires WellFormed(sh, S, ring, cols) && c in ring && i < |cols[c]| && j < 3
    ensures StepReady(sh, S, c, cols[c], i, j) && UnstepReady(sh, S, c, cols[c], i, j + 1)
  {
    var vl := cols[c];
    var k := 3 * i + j;
    TraceAt(sh.ncols, vl, i, j + 1);
    assert Trace(sh.ncols, vl)[k] == Step(sh.ncols, vl[i], j + 1);
    StepReadyAt(sh, S, ring, cols, c, k);
    RowsOutTrace(sh, S, c, vl, i);
    RowOutTrace(sh, S, c, vl, i, j);
    RowOutTrace(sh, S, c, vl, i, j + 1);
    assert 3 * i + (j + 1) == k + 1;
  }

  lemma ViewPlan(sh: Shape, S: Snap, ring: seq<int>, cols: seq<seq<int>>, c: int, i: nat)
    requires WellFormed(sh, S, ring, cols) && c in ring && i <= |cols[c]|
    ensures ColumnView(sh, S, c, cols[c], i)
  {
    CoverView(sh, S, ring, cols, c, 3 * i);
    RowsOutTrace(sh, S, c, cols[c], i);
  }

  /** Everything the loops of cover_column and uncover_column need to
      know about column c with vertical list vl, taken in state S. */
  ghost predicate CoverPlan(sh: Shape, S: Snap, c: int, vl: seq<int>) {
    c !in vl &&
    (forall i: nat, j: nat :: i < |vl| && j < 3 ==> StepReady(sh, S, c, vl, i, j)) &&
    (forall i: nat, j: nat :: i < |vl| && 1 <= j <= 3 ==> UnstepReady(sh, S, c, vl, i, j)) &&
    (forall i: nat :: i <= |vl| ==> ColumnView(sh, S, c, vl, i)) &&
    (forall i :: 0 <= i < |vl| ==> RowRing(sh.ncols, SpliceOut(S.h, c), vl[i]))
  }

  lemma ColumnPlan(sh: Shape, S: Snap, ring: seq<int>, cols: seq<seq<int>>, c: int)
    requires WellFormed(sh, S, ring, cols) && c in ring
    ensures CoverPlan(sh, S, c, cols[c])
  {
    var vl := cols[c];
    ColumnFacts(sh, S, ring, cols, c);
    forall i: nat, j: nat | i < |vl| && j < 3
      ensures StepReady(sh, S, c, vl, i, j) && UnstepReady(sh, S, c, vl, i, j + 1)
    {
      StepPlan(sh, S, ring, cols, c, i, j);
    }
    forall i: nat, j: nat | i < |vl| && 1 <= j <= 3 ensures UnstepReady(sh, S, c, vl, i, j) {
      StepPlan(sh, S, ring, cols, c, i, j - 1);
    }
    forall i: nat | i <= |vl| ensures ColumnView(sh, S, c, vl, i) {
      ViewPlan(sh, S, ring, cols, c, i);
    }
    forall i | 0 <= i < |vl| ensures RowRing(sh.ncols, SpliceOut(S.h, c), vl[i]) {
      RowReady(sh, S, ring, cols, c, i);
    }
  }

  // ---------------------------------------------------------------------
  // Search

  /** The root points at itself exactly when no column is left. */
  lemma RingEmpty(sh: Shape, S: Snap, ring: seq<int>)
    requires RingOK(sh, S, ring)
    ensures S.h.next[0] == 0 <==> ring == []
    ensures ring != [] ==> S.h.next[0] == ring[0]
  {
    assert ([0] + ring)[0] == 0;
    if ring != [] {
      assert ([0] + ring)[1] == ring[0];
    }
  }

  /** The four nodes of a row have four different headers. */
  lemma MatesDistinct(sh: Shape, x: int, a: nat, b: nat)
    requires ShapeOK(sh) && IsData(sh, x) && a < b <= 3
    ensures MateCol(sh, x, a) != MateCol(sh, x, b)
  {
    var y := Step(sh.ncols, x, a);
    StepRange(sh, x, a);
    StepStep(sh.ncols, x, a, b - a);
    assert MateCol(sh, y, b - a) != sh.colOf[y];
  }

  lemma TakenNext(sh: Shape, x: int, j: nat)
    ensures Taken(sh, x, j + 1) == Taken(sh, x, j) + {MateCol(sh, x, j + 1)}
  {
  }

  /** A row in a live column: its first node is in the column, and the
      headers of all four of its nodes are live. */
  lemma RowInLiveColumn(sh: Shape, S: Snap, ring: seq<int>, cols: seq<seq<int>>, c: int, i: int)
    requires WellFormed(sh, S, ring, cols) && c in ring && 0 <= i < |cols[c]|
    ensures IsData(sh, cols[c][i]) && MateCol(sh, cols[c][i], 0) == c
    ensures forall n :: 0 <= n < 4 ==> MateCol(sh, cols[c][i], n) in ring
  {
    ColumnFacts(sh, S, ring, cols, c);
    var x := cols[c][i];
    assert Hangs(ring, cols, c, x);
    assert RowLive(sh, ring, cols, x);
    StepSelf(sh.ncols, x, 0);
    forall n | 0 <= n < 4 ensures MateCol(sh, x, n) in ring {
      assert MateLive(sh, ring, cols, Step(sh.ncols, x, n));
    }
  }

  /** A row x whose columns are live, followed by an exact cover of the
      columns x leaves, is an exact cover of the live columns. */
  lemma ExactCoverCons(sh: Shape, x: int, rest: seq<int>, ring: seq<int>, ring': seq<int>)
    requires IsData(sh, x) && forall h :: h in RowCols(sh, x) ==> h in ring
    requires forall h :: h in ring' <==> h in ring && h !in RowCols(sh, x)
    requires ExactCover(sh, rest, ring')
    ensures ExactCover(sh, [x] + rest, ring)
  {
    var sol := [x] + rest;
    forall i, j | 0 <= i < j < |sol| ensures RowCols(sh, sol[i]) !! RowCols(sh, sol[j]) {
      if i == 0 {
        assert sol[j] == rest[j - 1];
      } else {
        assert sol[i] == rest[i - 1] && sol[j] == rest[j - 1];
      }
    }
    forall h | h in ring ensures exists i :: 0 <= i < |sol| && h in RowCols(sh, sol[i]) {
      if h in RowCols(sh, x) {
        assert h in RowCols(sh, sol[0]);
      } else {
        var i :| 0 <= i < |rest| && h in RowCols(sh, rest[i]);
        assert sol[i + 1] == rest[i];
      }
    }
    forall i, h | 0 <= i < |sol| && h in RowCols(sh, sol[i]) ensures h in ring {
      if i > 0 {
        assert sol[i] == rest[i - 1];
      }
    }
  }

  // ---------------------------------------------------------------------
  // Covering the other columns of a row

  /** A state of the torus together with its ghost views. */
  datatype Frame = Frame(s: Snap, ring: seq<int>, cols: seq<seq<int>>)

  /** G is what cover_column(m) makes of F, and F is a well-formed state
      in which m is live. */
  ghost predicate CoverStepOf(sh: Shape, F: Frame, G: Frame, m: int) {
    WellFormed(sh, F.s, F.ring, F.cols) && m in F.ring && 0 <= m < |F.cols| &&
    G == Frame(CoverSnap(sh, F.s, m, F.cols[m]), Except(F.ring, [m]),
               Drop(F.cols, Trace(sh.ncols, F.cols[m])))
  }

  /** fs[k+1] is what covering the header of the node k+1 places right of
      x makes of fs[k]. */
  ghost predicate CoverChain(sh: Shape, x: int, fs: seq<Frame>) {
    forall k :: 0 <= k < |fs| - 1 ==> LinkAt(sh, x, fs, k)
  }

  /** Link k of the chain: fs[k+1] is fs[k] with the header of node k+1
      covered. */
  ghost predicate LinkAt(sh: Shape, x: int, fs: seq<Frame>, k: nat)
    requires k < |fs| - 1
  {
    CoverStepOf(sh, fs[k], fs[k + 1], MateCol(sh, x, k + 1))
  }

  lemma ChainSnoc(sh: Shape, x: int, fs: seq<Frame>, j: nat, F: Frame, G: Frame)
    requires CoverChain(sh, x, fs) && |fs| == j + 1 && fs[j] == F
    requires CoverStepOf(sh, F, G, MateCol(sh, x, j + 1))
    ensures CoverChain(sh, x, fs + [G])
  {
    var gs := fs + [G];
    forall k | 0 <= k < |gs| - 1
      ensures LinkAt(sh, x, gs, k)
    {
      if k < |fs| - 1 {
        assert LinkAt(sh, x, fs, k);
        assert gs[k] == fs[k] && gs[k + 1] == fs[k + 1];
      }
    }
  }

  lemma ChainAt(sh: Shape, x: int, fs: seq<Frame>, k: int)
    requires CoverChain(sh, x, fs) && 0 <= k < |fs| - 1
    ensures CoverStepOf(sh, fs[k], fs[k + 1], MateCol(sh, x, k + 1))
  {
    assert LinkAt(sh, x, fs, k);
  }

  /** The right neighbour of a data node is one step on in its row. */
  lemma RowRight(sh: Shape, S: Snap, ring: seq<int>, cols: seq<seq<int>>, x: int)
    requires WellFormed(sh, S, ring, cols) && IsData(sh, x)
    ensures S.h.next[x] == Step(sh.ncols, x, 1)
  {
  }

  /** The left neighbour of a data node is three steps on in its row. */
  lemma RowLeft(sh: Shape, S: Snap, ring: seq<int>, cols: seq<seq<int>>, x: int)
    requires WellFormed(sh, S, ring, cols) && IsData(sh, x)
    ensures S.h.prev[x] == Step(sh.ncols, x, 3)
  {
  }

  /** Walking right from the node j steps on in the row of x. */
  lemma RowRightAt(sh: Shape, S: Snap, ring: seq<int>, cols: seq<seq<int>>, x: int, j: nat)
    requires WellFormed(sh, S, ring, cols) && IsData(sh, x)
    ensures S.h.next[Step(sh.ncols, x, j)] == Step(sh.ncols, x, j + 1)
  {
    StepRange(sh, x, j);
    RowRight(sh, S, ring, cols, Step(sh.ncols, x, j));
    StepStep(sh.ncols, x, j, 1);
  }

  /** Walking left from the node j steps on in the row of x, for j >= 1. */
  lemma RowLeftAt(sh: Shape, S: Snap, ring: seq<int>, cols: seq<seq<int>>, x: int, j: nat)
    requires WellFormed(sh, S, ring, cols) && IsData(sh, x) && 1 <= j
    ensures S.h.prev[Step(sh.ncols, x, j)] == Step(sh.ncols, x, j - 1)
  {
    StepRange(sh, x, j);
    RowLeft(sh, S, ring, cols, Step(sh.ncols, x, j));
    StepLeft(sh.ncols, x, j);
  }

  /** The header of the node j+1 places right of x is none of the
      headers of x and the j nodes before it. */
  lemma TakenFresh(sh: Shape, x: int, j: nat)
    requires ShapeOK(sh) && IsData(sh, x) && j < 3
    ensures MateCol(sh, x, j + 1) !in Taken(sh, x, j)
  {
    forall n | 0 <= n <= j ensures MateCol(sh, x, n) != MateCol(sh, x, j + 1) {
      MatesDistinct(sh, x, n, j + 1);
    }
  }

  /** Taking m out of the root's list takes it out of what is live. */
  lemma RingShrinks(ring0: seq<int>, ring: seq<int>, ring': seq<int>, T: set<int>, m: int)
    requires forall h :: h in ring <==> h in ring0 && h !in T
    requires forall h :: h in ring' <==> h in ring && h != m
    ensures forall h :: h in ring' <==> h in ring0 && h !in T + {m}
  {
  }

  /** Covering a live column shortens the root's list. */
  lemma CoverShortens(ring: seq<int>, c: int)
    requires c in ring
    ensures |Except(ring, [c])| < |ring|
    ensures forall h :: h in Except(ring, [c]) <==> h in ring && h != c
  {
    ExceptShorter(ring, [c], c);
    forall h ensures h in Except(ring, [c]) <==> h in ring && h != c {
      ExceptMembers(ring, [c], h);
    }
  }

  /** x is a data row of column c whose four columns are all in ring0. */
  ghost predicate RowOf(sh: Shape, x: int, c: int, ring0: seq<int>) {
    IsData(sh, x) && MateCol(sh, x, 0) == c && forall n :: 0 <= n < 4 ==> MateCol(sh, x, n) in ring0
  }

  /** A row of live column c, once c is covered: c is gone, and the
      headers of the other three nodes of the row are still live. */
  lemma RowMatesLive(sh: Shape, x: int, ring0: seq<int>, ring1: seq<int>, c: int)
    requires ShapeOK(sh) && RowOf(sh, x, c, ring0)
    requires forall h :: h in ring1 <==> h in ring0 && h != c
    ensures c !in ring1 && forall n :: 1 <= n <= 3 ==> MateCol(sh, x, n) in ring1
    ensures forall h :: h in RowCols(sh, x) ==> h in ring0
  {
    forall n | 1 <= n <= 3 ensures MateCol(sh, x, n) in ring1 {
      MatesDistinct(sh, x, 0, n);
    }
  }

  /** When the recursive call below row solved the rest, the solution
      built so far, row, and the rest together cover every column that
      was live before row's columns were covered. */
  lemma SolvedByRow(sh: Shape, sol: seq<int>, row: int, sol': seq<int>, ring0: seq<int>, ring3: seq<int>)
    requires IsData(sh, row) && forall h :: h in RowCols(sh, row) ==> h in ring0
    requires forall h :: h in ring3 <==> h in ring0 && h !in RowCols(sh, row)
    requires |sol| + 1 <= |sol'| && sol'[..|sol| + 1] == sol + [row]
    requires ExactCover(sh, sol'[|sol| + 1..], ring3)
    ensures |sol| <= |sol'| && sol'[..|sol|] == sol && ExactCover(sh, sol'[|sol|..], ring0)
  {
    assert sol'[|sol|..] == [row] + sol'[|sol| + 1..];
    assert sol'[..|sol|] == (sol + [row])[..|sol|];
    ExactCoverCons(sh, row, sol'[|sol| + 1..], ring0, ring3);
  }
}
