/** Laws of matrix_create, stated on values: the header chain it builds
    closes into the root's ring, and adding one possibility row (four new
    nodes at the end of the arena, each appended at the bottom of its
    column and linked across into a cycle) keeps the torus well formed,
    with every column's list growing by its new node. */
module BuildLaws {
  import opened Links
  import opened TorusSpec
  import opened Layout

  /** The headers 1..ncols, in id order. */
  function Headers(ncols: nat): (hs: seq<int>)
    ensures |hs| == ncols
  {
    seq(ncols, i => i + 1)
  }

  /** A chain 0 -> 1 -> ... -> m linked both ways and closed from m back
      to 0 is the circular list [0, 1, ..., m]. */
  lemma ChainCircular(a: Axis, m: nat)
    requires |a.next| == |a.prev| > m
    requires forall i :: 0 <= i < m ==> a.next[i] == i + 1 && a.prev[i + 1] == i
    requires a.next[m] == 0 && a.prev[0] == m
    ensures Circular(a, [0] + Headers(m))
  {
    var s := [0] + Headers(m);
    assert forall i :: 0 <= i < |s| ==> s[i] == i;
  }

  /** The root and the headers alone, each header's list holding only
      itself, form a well-formed torus with every list empty. */
  lemma EmptyWellFormed(sh: Shape, S: Snap)
    requires |sh.colOf| == sh.ncols + 1 && forall x :: 0 <= x <= sh.ncols ==> sh.colOf[x] == Null
    requires Sized(sh, S) && Circular(S.h, [0] + Headers(sh.ncols))
    requires forall h :: 1 <= h <= sh.ncols ==> S.v.next[h] == h && S.v.prev[h] == h && S.count[h] == 0
    ensures ColumnLists(sh) == seq(sh.ncols + 1, _ => [])
    ensures WellFormed(sh, S, Headers(sh.ncols), ColumnLists(sh))
  {
    var cols := ColumnLists(sh);
    assert cols == seq(sh.ncols + 1, _ => []);
    forall h | 1 <= h <= sh.ncols ensures ColumnOK(sh, S, cols, h) {
      assert [h] + cols[h] == [h];
    }
  }

  // ---------------------------------------------------------------------
  // Column lists in arena order

  /** The nodes among lo..hi-1 whose header is h, in arena order. */
  function Members(colOf: seq<int>, h: int, lo: nat, hi: int): seq<int>
    requires hi <= |colOf|
    decreases hi - lo
  {
    if hi <= lo then [] else Members(colOf, h, lo, hi - 1) + (if colOf[hi - 1] == h then [hi - 1] else [])
  }

  /** For every header, the data nodes that hang from it, in arena order. */
  function ColumnLists(sh: Shape): seq<seq<int>>
  {
    seq(sh.ncols + 1, h => if sh.ncols < |sh.colOf| then Members(sh.colOf, h, sh.ncols + 1, |sh.colOf|) else [])
  }

  /** Members are exactly the nodes of lo..hi-1 whose header is h, in
      strictly increasing order. */
  lemma {:induction false} MembersSpec(colOf: seq<int>, h: int, lo: nat, hi: int)
    requires hi <= |colOf|
    ensures forall x :: x in Members(colOf, h, lo, hi) <==> lo <= x < hi && colOf[x] == h
    ensures forall i, j :: 0 <= i < j < |Members(colOf, h, lo, hi)| ==>
              Members(colOf, h, lo, hi)[i] < Members(colOf, h, lo, hi)[j]
    decreases hi - lo
  {
    if hi > lo {
      MembersSpec(colOf, h, lo, hi - 1);
      var m := Members(colOf, h, lo, hi - 1);
      var m' := Members(colOf, h, lo, hi);
      if colOf[hi - 1] == h {
        assert m' == m + [hi - 1];
        forall i, j | 0 <= i < j < |m'| ensures m'[i] < m'[j] {
          if j == |m| { assert m'[i] == m[i] && m[i] in m; }
        }
      } else {
        assert m' == m;
      }
    }
  }

  /** Adding nodes past hi does not change the members below hi. */
  lemma {:induction false} MembersPrefix(colOf: seq<int>, ext: seq<int>, h: int, lo: nat, hi: int)
    requires hi <= |colOf|
    ensures Members(colOf + ext, h, lo, hi) == Members(colOf, h, lo, hi)
    decreases hi - lo
  {
    if hi > lo {
      MembersPrefix(colOf, ext, h, lo, hi - 1);
      assert (colOf + ext)[hi - 1] == colOf[hi - 1];
    }
  }

  /** The new nodes of a row added at L that hang from h. */
  function NewIn(cs: seq<int>, h: int, L: int): seq<int>
    requires |cs| == 4
  {
    (if cs[0] == h then [L] else []) + (if cs[1] == h then [L + 1] else []) +
    (if cs[2] == h then [L + 2] else []) + (if cs[3] == h then [L + 3] else [])
  }

  lemma NewInOne(cs: seq<int>, h: int, L: int, f: int)
    requires |cs| == 4 && 0 <= f < 4 && cs[f] == h && forall g :: 0 <= g < 4 && g != f ==> cs[g] != h
    ensures NewIn(cs, h, L) == [L + f]
  {
  }

  lemma NewInNone(cs: seq<int>, h: int, L: int)
    requires |cs| == 4 && forall g :: 0 <= g < 4 ==> cs[g] != h
    ensures NewIn(cs, h, L) == []
  {
  }

  /** Every list grown by its new nodes. */
  function GrowCols(cols: seq<seq<int>>, cs: seq<int>, L: int): seq<seq<int>>
    requires |cs| == 4
  {
    seq(|cols|, h requires 0 <= h < |cols| => cols[h] + NewIn(cs, h, L))
  }

  /** Adding a row of four nodes with headers cs grows every member list
      by the new nodes that hang from it. */
  lemma MembersGrow(colOf: seq<int>, cs: seq<int>, h: int, lo: nat)
    requires lo <= |colOf| && |cs| == 4
    ensures Members(colOf + cs, h, lo, |colOf| + 4) == Members(colOf, h, lo, |colOf|) + NewIn(cs, h, |colOf|)
  {
    var L, c := |colOf|, colOf + cs;
    MembersPrefix(colOf, cs, h, lo, L);
    assert c[L] == cs[0] && c[L + 1] == cs[1] && c[L + 2] == cs[2] && c[L + 3] == cs[3];
    var m := Members(c, h, lo, L);
    var e0, e1, e2, e3 := (if cs[0] == h then [L] else []), (if cs[1] == h then [L + 1] else []),
                          (if cs[2] == h then [L + 2] else []), (if cs[3] == h then [L + 3] else []);
    MembersStep(c, h, lo, L);
    MembersStep(c, h, lo, L + 1);
    MembersStep(c, h, lo, L + 2);
    MembersStep(c, h, lo, L + 3);
    Regroup(m, e0, e1, e2, e3);
  }

  lemma Regroup(m: seq<int>, e0: seq<int>, e1: seq<int>, e2: seq<int>, e3: seq<int>)
    ensures m + e0 + e1 + e2 + e3 == m + (e0 + e1 + e2 + e3)
  {
  }

  lemma MembersStep(c: seq<int>, h: int, lo: nat, hi: int)
    requires lo <= hi < |c|
    ensures Members(c, h, lo, hi + 1) == Members(c, h, lo, hi) + (if c[hi] == h then [hi] else [])
  {
  }

  lemma ColumnListsGrow(sh: Shape, cs: seq<int>)
    requires sh.ncols < |sh.colOf| && |cs| == 4
    ensures ColumnLists(Shape(sh.ncols, sh.colOf + cs)) == GrowCols(ColumnLists(sh), cs, |sh.colOf|)
  {
    var a, b := ColumnLists(Shape(sh.ncols, sh.colOf + cs)), GrowCols(ColumnLists(sh), cs, |sh.colOf|);
    forall h | 0 <= h < |a| ensures a[h] == b[h] {
      MembersGrow(sh.colOf, cs, h, sh.ncols + 1);
    }
  }

  // ---------------------------------------------------------------------
  // The nodes of the possibility rows

  /** The headers of the four constraints of possibility row `row`: the
      constraint with index i is header i + 1. */
  function Targets(row: nat, k: nat, n: nat): (cs: seq<int>)
    requires k > 0 && n > 0
    ensures |cs| == 4
  {
    [Constraint(row, 0, k, n) + 1, Constraint(row, 1, k, n) + 1,
     Constraint(row, 2, k, n) + 1, Constraint(row, 3, k, n) + 1]
  }

  /** They are four different headers, one in each family. */
  lemma TargetsHeaders(row: nat, k: nat, n: nat)
    requires Dims(k, n) && row < Cube(n)
    ensures RowHeaders(4 * (n * n), Targets(row, k, n))
    ensures forall f :: 0 <= f < 4 ==> f * (n * n) < Targets(row, k, n)[f] <= (f + 1) * (n * n)
  {
    ConstraintRange(row, 0, k, n);
    ConstraintRange(row, 1, k, n);
    ConstraintRange(row, 2, k, n);
    ConstraintRange(row, 3, k, n);
  }

  /** The parents of the data nodes of the rows `rows`, four per row, in
      the order the rows were added. */
  function Parents(rows: seq<nat>, k: nat, n: nat): (ps: seq<int>)
    requires k > 0 && n > 0
    ensures |ps| == 4 * |rows|
  {
    if rows == [] then [] else Parents(rows[..|rows| - 1], k, n) + Targets(rows[|rows| - 1], k, n)
  }

  /** The row ids of those data nodes: each row's id four times. */
  function RowIds(rows: seq<nat>): (ids: seq<int>)
    ensures |ids| == 4 * |rows|
  {
    if rows == [] then [] else RowIds(rows[..|rows| - 1]) + seq(4, _ => rows[|rows| - 1])
  }

  /** Node f of the i-th row added has the i-th row's f-th header as
      parent and the i-th row's id. */
  lemma {:induction false} NodesAt(rows: seq<nat>, k: nat, n: nat, i: nat, f: nat)
    requires k > 0 && n > 0 && i < |rows| && f < 4
    ensures Parents(rows, k, n)[4 * i + f] == Targets(rows[i], k, n)[f]
    ensures RowIds(rows)[4 * i + f] == rows[i]
  {
    var init := rows[..|rows| - 1];
    if i < |rows| - 1 {
      NodesAt(init, k, n, i, f);
      assert init[i] == rows[i];
    }
  }

  /** The nodes of one more row go at the end. */
  lemma NodesSnoc(rows: seq<nat>, row: nat, k: nat, n: nat)
    requires k > 0 && n > 0
    ensures Parents(rows + [row], k, n) == Parents(rows, k, n) + Targets(row, k, n)
    ensures RowIds(rows + [row]) == RowIds(rows) + [row, row, row, row]
  {
    assert (rows + [row])[..|rows|] == rows;
  }

  // ---------------------------------------------------------------------
  // Adding one possibility row

  /** Four different headers, as the four constraints of a possibility
      row are. */
  predicate RowHeaders(ncols: nat, cs: seq<int>) {
    |cs| == 4 && (forall f :: 0 <= f < 4 ==> 1 <= cs[f] <= ncols) &&
    cs[0] != cs[1] && cs[0] != cs[2] && cs[0] != cs[3] && cs[1] != cs[2] && cs[1] != cs[3] && cs[2] != cs[3]
  }

  function Bump(count: seq<int>, c: int): seq<int>
    requires 0 <= c < |count|
  {
    count[c := count[c] + 1]
  }

  /** The torus after matrix_create adds one possibility row at arena
      positions L..L+3 with headers cs: the counts of the four headers
      go up by one, node L+f is appended at the bottom of cs[f]'s list
      (its old bottom t[f] points down at it, the header points up at
      it), and the four new nodes are linked right and left in a cycle. */
  function GrowSnap(S: Snap, cs: seq<int>, L: int): Snap
    requires Tails(S, cs) && forall f :: 0 <= f < 4 ==> cs[f] < |S.count|
  {
    var t := [S.v.prev[cs[0]], S.v.prev[cs[1]], S.v.prev[cs[2]], S.v.prev[cs[3]]];
    Snap(Axis(S.h.next + [L + 1, L + 2, L + 3, L], S.h.prev + [L + 3, L, L + 1, L + 2]),
         Axis(S.v.next[t[0] := L][t[1] := L + 1][t[2] := L + 2][t[3] := L + 3] + cs,
              S.v.prev[cs[0] := L][cs[1] := L + 1][cs[2] := L + 2][cs[3] := L + 3] + t),
         Bump(Bump(Bump(Bump(S.count, cs[0]), cs[1]), cs[2]), cs[3]) + [0, 0, 0, 0])
  }

  /** GrowSnap field by field, with t the old bottoms of the four lists. */
  lemma GrowSnapParts(S: Snap, cs: seq<int>, L: int, t: seq<int>)
    requires Tails(S, cs) && forall f :: 0 <= f < 4 ==> cs[f] < |S.count|
    requires t == [S.v.prev[cs[0]], S.v.prev[cs[1]], S.v.prev[cs[2]], S.v.prev[cs[3]]]
    ensures GrowSnap(S, cs, L).h == Axis(S.h.next + [L + 1, L + 2, L + 3, L], S.h.prev + [L + 3, L, L + 1, L + 2])
    ensures GrowSnap(S, cs, L).v.next == S.v.next[t[0] := L][t[1] := L + 1][t[2] := L + 2][t[3] := L + 3] + cs
    ensures GrowSnap(S, cs, L).v.prev == S.v.prev[cs[0] := L][cs[1] := L + 1][cs[2] := L + 2][cs[3] := L + 3] + t
    ensures GrowSnap(S, cs, L).count == Bump(Bump(Bump(Bump(S.count, cs[0]), cs[1]), cs[2]), cs[3]) + [0, 0, 0, 0]
  {
  }

  /** The node that owns y's list: y itself for a header, y's parent for a
      data node. */
  function Owner(sh: Shape, y: int): int
    requires 0 <= y < |sh.colOf|
  {
    if y <= sh.ncols then y else sh.colOf[y]
  }

  /** Every node of h's circular list, h included, is owned by h; the
      bottom of the list is h.up. */
  lemma ListOwner(sh: Shape, S: Snap, ring: seq<int>, cols: seq<seq<int>>, h: int)
    requires WellFormed(sh, S, ring, cols) && 1 <= h <= sh.ncols
    ensures forall y :: y in [h] + cols[h] ==> 0 <= y < |sh.colOf| && Owner(sh, y) == h
    ensures S.v.prev[h] == ([h] + cols[h])[|cols[h]|] && S.v.prev[h] in [h] + cols[h]
  {
    assert ColumnOK(sh, S, cols, h);
    var s := [h] + cols[h];
    forall y | y in s ensures 0 <= y < |sh.colOf| && Owner(sh, y) == h {
      if y != h {
        var i :| 0 <= i < |s| && s[i] == y;
        assert cols[h][i - 1] == y;
      }
    }
  }

  /** Each new node is appended below the current bottom of its list. */
  predicate Tails(S: Snap, cs: seq<int>) {
    Below(cs, |S.v.prev|) && Below([S.v.prev[cs[0]], S.v.prev[cs[1]], S.v.prev[cs[2]], S.v.prev[cs[3]]], |S.v.next|)
  }

  /** Four nodes, all in 0..n-1. */
  predicate Below(ns: seq<int>, n: int) {
    |ns| == 4 && 0 <= ns[0] < n && 0 <= ns[1] < n && 0 <= ns[2] < n && 0 <= ns[3] < n
  }

  /** Steps from a new node stay within its row. */
  lemma StepFresh(ncols: nat, L: int, f: nat, n: nat)
    requires (L - ncols - 1) % 4 == 0 && f < 4
    ensures Step(ncols, L + f, n) == L + (f + n) % 4
  {
    var q := (L - ncols - 1) / 4;
    assert L + f - ncols - 1 == 4 * q + f;
    assert Slot(ncols, L + f) == f;
  }

  /** The new shape is a shape: the headers are untouched and the new
      row's four nodes sit in four different columns. */
  lemma GrowShapeOK(sh: Shape, cs: seq<int>)
    requires ShapeOK(sh) && RowHeaders(sh.ncols, cs)
    ensures ShapeOK(Shape(sh.ncols, sh.colOf + cs))
  {
    var L, sh' := |sh.colOf|, Shape(sh.ncols, sh.colOf + cs);
    forall x, n | sh.ncols < x < |sh'.colOf| && 1 <= n <= 3 ensures MateCol(sh', x, n) != sh'.colOf[x] {
      if x < L {
        StepRange(sh, x, n);
        assert MateCol(sh', x, n) == MateCol(sh, x, n);
      } else {
        StepFresh(sh.ncols, L, x - L, n);
        assert sh'.colOf[x] == cs[x - L];
      }
    }
  }

  /** The root's ring and every row's links carry over, and the new row
      is a cycle of four. */
  lemma GrowLinks(sh: Shape, S: Snap, ring: seq<int>, cols: seq<seq<int>>, cs: seq<int>)
    requires WellFormed(sh, S, ring, cols) && RowHeaders(sh.ncols, cs) && Tails(S, cs)
    ensures var L := |sh.colOf|;
            var sh', S' := Shape(sh.ncols, sh.colOf + cs), GrowSnap(S, cs, L);
            Sized(sh', S') && RingOK(sh', S', ring) && RowLinks(sh', S')
  {
    var L := |sh.colOf|;
    var sh', S' := Shape(sh.ncols, sh.colOf + cs), GrowSnap(S, cs, L);
    CircularFrame(S.h, S'.h, [0] + ring);
    forall x | sh.ncols < x < |sh'.colOf|
      ensures S'.h.next[x] == Step(sh.ncols, x, 1) && S'.h.prev[x] == Step(sh.ncols, x, 3)
    {
      if x >= L {
        GrowAcross(S, cs, sh.ncols, L, x - L);
      }
    }
  }

  /** The new row is linked across in a cycle of four. */
  lemma GrowAcross(S: Snap, cs: seq<int>, ncols: nat, L: int, f: nat)
    requires Tails(S, cs) && forall g :: 0 <= g < 4 ==> cs[g] < |S.count|
    requires |S.h.next| == |S.h.prev| == L && (L - ncols - 1) % 4 == 0 && f < 4
    ensures GrowSnap(S, cs, L).h.next[L + f] == Step(ncols, L + f, 1)
    ensures GrowSnap(S, cs, L).h.prev[L + f] == Step(ncols, L + f, 3)
  {
    StepFresh(ncols, L, f, 1);
    StepFresh(ncols, L, f, 3);
  }

  /** Column h after the row is added: grown by its new node when h is
      one of the row's headers, untouched otherwise. */
  lemma GrowColumn(sh: Shape, S: Snap, ring: seq<int>, cols: seq<seq<int>>, cs: seq<int>, h: int)
    requires WellFormed(sh, S, ring, cols) && RowHeaders(sh.ncols, cs) && Tails(S, cs) && 1 <= h <= sh.ncols
    ensures var L := |sh.colOf|;
            var sh', S' := Shape(sh.ncols, sh.colOf + cs), GrowSnap(S, cs, L);
            ColumnOK(sh', S', GrowCols(cols, cs, L), h)
  {
    ListOwner(sh, S, ring, cols, h);
    forall g | 0 <= g < 4 ensures Owner(sh, S.v.prev[cs[g]]) == cs[g] {
      ListOwner(sh, S, ring, cols, cs[g]);
    }
    assert ColumnOK(sh, S, cols, h);
    GrowColumnAt(sh, S, cols, cs, h);
  }

  lemma GrowColumnAt(sh: Shape, S: Snap, cols: seq<seq<int>>, cs: seq<int>, h: int)
    requires sh.ncols < |sh.colOf| && Sized(sh, S) && |cols| == sh.ncols + 1 && 1 <= h <= sh.ncols
    requires ColumnOK(sh, S, cols, h) && RowHeaders(sh.ncols, cs) && Tails(S, cs)
    requires forall y :: y in [h] + cols[h] ==> 0 <= y < |sh.colOf| && Owner(sh, y) == h
    requires forall g :: 0 <= g < 4 ==> Owner(sh, S.v.prev[cs[g]]) == cs[g]
    ensures var L := |sh.colOf|;
            var sh', S' := Shape(sh.ncols, sh.colOf + cs), GrowSnap(S, cs, L);
            ColumnOK(sh', S', GrowCols(cols, cs, L), h)
  {
    var L := |sh.colOf|;
    var sh', S', cols' := Shape(sh.ncols, sh.colOf + cs), GrowSnap(S, cs, L), GrowCols(cols, cs, L);
    var s := [h] + cols[h];
    GrowMembers(sh, cols, cs, h);
    GrowCount(S, cs, L, h);
    if f :| 0 <= f < 4 && cs[f] == h {
      NewInOne(cs, h, L, f);
      forall g | 0 <= g < 4 && g != f ensures cs[g] !in s && S.v.prev[cs[g]] !in s {
        assert Owner(sh, cs[g]) == cs[g];
      }
      HitCircular(S, cs, L, s, f);
      assert s + [L + f] == [h] + cols'[h];
    } else {
      NewInNone(cs, h, L);
      forall g | 0 <= g < 4 ensures cs[g] !in s && S.v.prev[cs[g]] !in s {
        assert Owner(sh, cs[g]) == cs[g];
      }
      MissCircular(S, cs, L, s);
      assert s == [h] + cols'[h];
    }
  }

  /** What the new links are: the tails point down at, and the headers up
      at, the new nodes; every other old node keeps its vertical links. */
  lemma GrowVertical(S: Snap, cs: seq<int>, L: int, y: int)
    requires Tails(S, cs) && |S.v.next| == |S.v.prev| == L && 0 <= y < L && forall f :: 0 <= f < 4 ==> cs[f] < |S.count|
    ensures var b := GrowSnap(S, cs, L).v;
            ((forall g :: 0 <= g < 4 ==> y != S.v.prev[cs[g]]) ==> b.next[y] == S.v.next[y]) &&
            ((forall g :: 0 <= g < 4 ==> y != cs[g]) ==> b.prev[y] == S.v.prev[y])
  {
  }

  lemma GrowVerticalAt(S: Snap, cs: seq<int>, L: int, f: int)
    requires Tails(S, cs) && |S.v.next| == |S.v.prev| == L && 0 <= f < 4 && forall g :: 0 <= g < 4 ==> cs[g] < |S.count|
    requires forall g :: 0 <= g < 4 && g != f ==> S.v.prev[cs[g]] != S.v.prev[cs[f]] && cs[g] != cs[f]
    ensures var b := GrowSnap(S, cs, L).v;
            b.next[S.v.prev[cs[f]]] == L + f && b.prev[cs[f]] == L + f &&
            b.next[L + f] == cs[f] && b.prev[L + f] == S.v.prev[cs[f]]
  {
  }

  /** Each header's count goes up by the number of new nodes below it. */
  lemma GrowCount(S: Snap, cs: seq<int>, L: int, h: int)
    requires Tails(S, cs) && (forall g :: 0 <= g < 4 ==> cs[g] < |S.count|) && 0 <= h < |S.count|
    requires cs[0] != cs[1] && cs[0] != cs[2] && cs[0] != cs[3] && cs[1] != cs[2] && cs[1] != cs[3] && cs[2] != cs[3]
    ensures GrowSnap(S, cs, L).count[h] == S.count[h] + |NewIn(cs, h, L)|
  {
  }

  /** The new nodes of column h hang from h. */
  lemma GrowMembers(sh: Shape, cols: seq<seq<int>>, cs: seq<int>, h: int)
    requires sh.ncols < |sh.colOf| && |cols| == sh.ncols + 1 && 1 <= h <= sh.ncols && RowHeaders(sh.ncols, cs)
    requires forall i :: 0 <= i < |cols[h]| ==> IsData(sh, cols[h][i]) && sh.colOf[cols[h][i]] == h
    ensures var L := |sh.colOf|;
            var sh', c := Shape(sh.ncols, sh.colOf + cs), GrowCols(cols, cs, L)[h];
            forall i :: 0 <= i < |c| ==> IsData(sh', c[i]) && sh'.colOf[c[i]] == h
  {
    var L := |sh.colOf|;
    var sh', c := Shape(sh.ncols, sh.colOf + cs), GrowCols(cols, cs, L)[h];
    assert c == cols[h] + NewIn(cs, h, L);
    forall i | 0 <= i < |c| ensures IsData(sh', c[i]) && sh'.colOf[c[i]] == h {
      if i < |cols[h]| {
        assert IsData(sh, cols[h][i]);
      } else {
        assert c[i] in NewIn(cs, h, L);
      }
    }
  }

  /** A list that none of the new links touch stays as it was. */
  lemma MissCircular(S: Snap, cs: seq<int>, L: int, s: seq<int>)
    requires Tails(S, cs) && |S.v.next| == |S.v.prev| == L && forall g :: 0 <= g < 4 ==> cs[g] < |S.count|
    requires Circular(S.v, s)
    requires forall g :: 0 <= g < 4 ==> cs[g] !in s && S.v.prev[cs[g]] !in s
    ensures Circular(GrowSnap(S, cs, L).v, s)
  {
    var b := GrowSnap(S, cs, L).v;
    forall i | 0 <= i < |s| ensures b.next[s[i]] == S.v.next[s[i]] && b.prev[s[i]] == S.v.prev[s[i]] {
      assert s[i] in s;
      GrowVertical(S, cs, L, s[i]);
    }
    CircularFrame(S.v, b, s);
  }

  /** Appending node L+f below the bottom of the list s headed by cs[f],
      when the other three headers and their bottoms lie outside s. */
  lemma HitCircular(S: Snap, cs: seq<int>, L: int, s: seq<int>, f: int)
    requires Tails(S, cs) && |S.v.next| == |S.v.prev| == L && forall g :: 0 <= g < 4 ==> cs[g] < |S.count|
    requires 0 <= f < 4 && Circular(S.v, s) && s[0] == cs[f]
    requires forall g :: 0 <= g < 4 && g != f ==> cs[g] != cs[f] && cs[g] !in s && S.v.prev[cs[g]] !in s
    ensures Circular(GrowSnap(S, cs, L).v, s + [L + f])
  {
    var a, b := S.v, GrowSnap(S, cs, L).v;
    assert a.prev[cs[f]] == s[|s| - 1];
    GrowVerticalAt(S, cs, L, f);
    forall i | 0 <= i < |s| - 1 ensures b.next[s[i]] == a.next[s[i]] {
      assert s[i] != s[|s| - 1] && s[i] in s;
      GrowVertical(S, cs, L, s[i]);
    }
    forall i | 1 <= i < |s| ensures b.prev[s[i]] == a.prev[s[i]] {
      assert s[i] != s[0] && s[i] in s;
      GrowVertical(S, cs, L, s[i]);
    }
    AppendAt(a, b, s, L + f);
  }

  /** Adding a possibility row whose four headers are live keeps the torus
      well formed, with each of the four lists grown by its new node. */
  lemma GrowWellFormed(sh: Shape, S: Snap, ring: seq<int>, cols: seq<seq<int>>, cs: seq<int>)
    requires WellFormed(sh, S, ring, cols) && RowHeaders(sh.ncols, cs)
    requires forall f :: 0 <= f < 4 ==> cs[f] in ring
    ensures Tails(S, cs)
    ensures WellFormed(Shape(sh.ncols, sh.colOf + cs), GrowSnap(S, cs, |sh.colOf|), ring,
                       GrowCols(cols, cs, |sh.colOf|))
  {
    forall f | 0 <= f < 4 ensures 0 <= S.v.prev[cs[f]] < |S.v.next| {
      ListOwner(sh, S, ring, cols, cs[f]);
    }
    assert Tails(S, cs);
    var L := |sh.colOf|;
    var sh', S', cols' := Shape(sh.ncols, sh.colOf + cs), GrowSnap(S, cs, L), GrowCols(cols, cs, L);
    GrowShapeOK(sh, cs);
    GrowLinks(sh, S, ring, cols, cs);
    forall h | 1 <= h <= sh.ncols ensures ColumnOK(sh', S', cols', h) {
      GrowColumn(sh, S, ring, cols, cs, h);
    }
    GrowLive(sh, ring, cols, cs);
  }

  /** Rows hanging in live columns still do, and so does the new row. */
  lemma GrowLive(sh: Shape, ring: seq<int>, cols: seq<seq<int>>, cs: seq<int>)
    requires ShapeOK(sh) && |cols| == sh.ncols + 1 && LiveRows(sh, ring, cols) && RowHeaders(sh.ncols, cs)
    requires forall f :: 0 <= f < 4 ==> cs[f] in ring
    ensures LiveRows(Shape(sh.ncols, sh.colOf + cs), ring, GrowCols(cols, cs, |sh.colOf|))
  {
    var L := |sh.colOf|;
    var sh', cols' := Shape(sh.ncols, sh.colOf + cs), GrowCols(cols, cs, L);
    forall h, x | Hangs(ring, cols', h, x) ensures RowLive(sh', ring, cols', x) {
      if x in cols[h] {
        assert Hangs(ring, cols, h, x);
        forall n | 0 <= n < 4 ensures MateLive(sh', ring, cols', Step(sh.ncols, x, n)) {
          GrowMateOld(sh, ring, cols, cs, Step(sh.ncols, x, n));
        }
      } else {
        assert x in NewIn(cs, h, L);
        var f :| 0 <= f < 4 && x == L + f;
        forall n | 0 <= n < 4 ensures MateLive(sh', ring, cols', Step(sh.ncols, x, n)) {
          GrowMateNew(sh, ring, cols, cs, f, n);
        }
      }
    }
  }

  /** An old node in a live column is still there after the row is added. */
  lemma GrowMateOld(sh: Shape, ring: seq<int>, cols: seq<seq<int>>, cs: seq<int>, y: int)
    requires |cols| == sh.ncols + 1 && |cs| == 4 && MateLive(sh, ring, cols, y)
    ensures MateLive(Shape(sh.ncols, sh.colOf + cs), ring, GrowCols(cols, cs, |sh.colOf|), y)
  {
    var cols' := GrowCols(cols, cs, |sh.colOf|);
    assert cols'[sh.colOf[y]] == cols[sh.colOf[y]] + NewIn(cs, sh.colOf[y], |sh.colOf|);
  }

  /** Each node of the new row sits in its (live) column. */
  lemma GrowMateNew(sh: Shape, ring: seq<int>, cols: seq<seq<int>>, cs: seq<int>, f: nat, n: nat)
    requires sh.ncols < |sh.colOf| && (|sh.colOf| - sh.ncols - 1) % 4 == 0 && |cols| == sh.ncols + 1 && RowHeaders(sh.ncols, cs) && f < 4
    requires forall g :: 0 <= g < 4 ==> cs[g] in ring
    ensures MateLive(Shape(sh.ncols, sh.colOf + cs), ring, GrowCols(cols, cs, |sh.colOf|),
                     Step(sh.ncols, |sh.colOf| + f, n))
  {
    var L := |sh.colOf|;
    var sh', cols' := Shape(sh.ncols, sh.colOf + cs), GrowCols(cols, cs, L);
    StepFresh(sh.ncols, L, f, n);
    var g := (f + n) % 4;
    assert 0 <= g < 4;
    assert sh'.colOf[L + g] == cs[g];
    assert L + g in NewIn(cs, cs[g], L);
    assert cols'[cs[g]] == cols[cs[g]] + NewIn(cs, cs[g], L);
  }
}
