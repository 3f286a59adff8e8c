/** The nodes matrix_create allocates, before the matrix takes them over,
    and the two operations it builds them with: node_create and
    link_nodes.

    Nodes live in an arena: node n's left, right, up and down links
    are left[n], right[n], up[n] and down[n], its parent header is
    parent[n], its row id (data node) or column id (header) is id[n], and
    a header's count is count[n].  NULL is -1. */
module Nodes {
  import opened Links
  import opened TorusSpec
  import opened BuildLaws

  /** linkmask_t and its four bits. */
  type LinkMask = bv8
  const LinkUp: LinkMask := 1
  const LinkRight: LinkMask := 2
  const LinkDown: LinkMask := 4
  const LinkLeft: LinkMask := 8

  /** enum DLX_TYPE */
  datatype NodeType = DataNode | ColumnNode

  /** s with s[i] set to v when cond holds. */
  function Put(s: seq<int>, cond: bool, i: int, v: int): seq<int>
    requires cond ==> 0 <= i < |s|
  {
    if cond then s[i := v] else s
  }

  const NoLinks: seq<int> := [Null, Null, Null, Null]


  /** Counting a node in an old header leaves the new nodes' counts. */
  lemma BumpAppend(count: seq<int>, z: seq<int>, c: int)
    requires 0 <= c < |count|
    ensures Bump(count + z, c) == Bump(count, c) + z
  {
  }

  lemma BumpAll(count: seq<int>, z: seq<int>, cs: seq<int>)
    requires Below(cs, |count|)
    ensures Bump(Bump(Bump(Bump(count + z, cs[0]), cs[1]), cs[2]), cs[3]) ==
            Bump(Bump(Bump(Bump(count, cs[0]), cs[1]), cs[2]), cs[3]) + z
  {
    BumpAppend(count, z, cs[0]);
    BumpAppend(Bump(count, cs[0]), z, cs[1]);
    BumpAppend(Bump(Bump(count, cs[0]), cs[1]), z, cs[2]);
    BumpAppend(Bump(Bump(Bump(count, cs[0]), cs[1]), cs[2]), z, cs[3]);
  }

  /** Down links after four nodes hang below the old bottoms t and above
      the headers cs. */
  lemma DownAll(next: seq<int>, t: seq<int>, cs: seq<int>, L: int)
    requires |next| == L && Below(t, L) && |cs| == 4
    ensures (next + NoLinks)[t[0] := L][t[1] := L + 1][t[2] := L + 2][t[3] := L + 3]
              [L := cs[0]][L + 1 := cs[1]][L + 2 := cs[2]][L + 3 := cs[3]] ==
            next[t[0] := L][t[1] := L + 1][t[2] := L + 2][t[3] := L + 3] + cs
  {
  }

  /** Up links after the same. */
  lemma UpAll(prev: seq<int>, t: seq<int>, cs: seq<int>, L: int)
    requires |prev| == L && |t| == 4 && Below(cs, L)
    ensures (prev + NoLinks)[L := t[0]][L + 1 := t[1]][L + 2 := t[2]][L + 3 := t[3]]
              [cs[0] := L][cs[1] := L + 1][cs[2] := L + 2][cs[3] := L + 3] ==
            prev[cs[0] := L][cs[1] := L + 1][cs[2] := L + 2][cs[3] := L + 3] + t
  {
  }

  /** Right and left links after four new nodes are linked across. */
  lemma AcrossAll(next: seq<int>, prev: seq<int>, L: int)
    requires |next| == L && |prev| == L
    ensures (next + NoLinks)[L := L + 1][L + 1 := L + 2][L + 2 := L + 3][L + 3 := L] == next + [L + 1, L + 2, L + 3, L]
    ensures (prev + NoLinks)[L + 1 := L][L + 2 := L + 1][L + 3 := L + 2][L := L + 3] == prev + [L + 3, L, L + 1, L + 2]
  {
  }

  /** The links and counts AddRow leaves are those of GrowSnap. */
  lemma RowEffect(S: Snap, cs: seq<int>, t: seq<int>, L: int,
                  next: seq<int>, prev: seq<int>, down: seq<int>, up: seq<int>, count: seq<int>)
    requires Tails(S, cs) && |S.h.next| == |S.h.prev| == |S.v.next| == |S.v.prev| == |S.count| == L
    requires t == [S.v.prev[cs[0]], S.v.prev[cs[1]], S.v.prev[cs[2]], S.v.prev[cs[3]]]
    requires next == (S.h.next + NoLinks)[L := L + 1][L + 1 := L + 2][L + 2 := L + 3][L + 3 := L]
    requires prev == (S.h.prev + NoLinks)[L + 1 := L][L + 2 := L + 1][L + 3 := L + 2][L := L + 3]
    requires down == (S.v.next + NoLinks)[t[0] := L][t[1] := L + 1][t[2] := L + 2][t[3] := L + 3]
                       [L := cs[0]][L + 1 := cs[1]][L + 2 := cs[2]][L + 3 := cs[3]]
    requires up == (S.v.prev + NoLinks)[L := t[0]][L + 1 := t[1]][L + 2 := t[2]][L + 3 := t[3]]
                     [cs[0] := L][cs[1] := L + 1][cs[2] := L + 2][cs[3] := L + 3]
    requires count == Bump(Bump(Bump(Bump(S.count + [0, 0, 0, 0], cs[0]), cs[1]), cs[2]), cs[3])
    ensures Snap(Axis(next, prev), Axis(down, up), count) == GrowSnap(S, cs, L)
  {
    BumpAll(S.count, [0, 0, 0, 0], cs);
    DownAll(S.v.next, t, cs, L);
    UpAll(S.v.prev, t, cs, L);
    AcrossAll(S.h.next, S.h.prev, L);
    GrowSnapParts(S, cs, L, t);
  }

  class Arena {
    var left: seq<int>
    var right: seq<int>
    var up: seq<int>
    var down: seq<int>
    var parent: seq<int>
    var id: seq<int>
    var count: seq<int>

    /** Every node has all of its fields. */
    ghost predicate Sized()
      reads this
    {
      |right| == |left| && |up| == |left| && |down| == |left| &&
      |parent| == |left| && |id| == |left| && |count| == |left|
    }

    function Current(): Snap
      reads this
    {
      Snap(Axis(right, left), Axis(down, up), count)
    }

    /** No nodes yet. */
    constructor ()
      ensures Sized() && left == []
    {
      left, right, up, down := [], [], [], [];
      parent, id, count := [], [], [];
    }

    /** node_create: a new node with all four links NULL; a data node
        records its parent header and row id, a header its column id and
        a count of 0. */
    method NodeCreate(t: NodeType, p: int, nid: int) returns (x: int)
      requires Sized()
      modifies this
      ensures Sized() && x == |old(left)|
      ensures left == old(left) + [Null] && right == old(right) + [Null]
      ensures up == old(up) + [Null] && down == old(down) + [Null]
      ensures parent == old(parent) + [if t == DataNode then p else Null]
      ensures id == old(id) + [nid] && count == old(count) + [0]
    {
      x := |left|;
      left, right, up, down := left + [Null], right + [Null], up + [Null], down + [Null];
      parent := parent + [if t == DataNode then p else Null];
      id, count := id + [nid], count + [0];
    }

    /** link_nodes: nothing when either node is NULL; otherwise, for each
        bit of the mask in the order LEFT, RIGHT, UP, DOWN, make b a's
        neighbour on that side and a b's neighbour on the opposite side. */
    method LinkNodes(a: int, b: int, mask: LinkMask)
      requires Sized() && (a == Null || 0 <= a < |left|) && (b == Null || 0 <= b < |left|)
      modifies this`left, this`right, this`up, this`down
      ensures Sized()
      ensures a == Null || b == Null ==> Current() == old(Current())
      ensures a != Null && b != Null ==>
                left == Put(Put(old(left), mask & LinkLeft != 0, a, b), mask & LinkRight != 0, b, a) &&
                right == Put(Put(old(right), mask & LinkLeft != 0, b, a), mask & LinkRight != 0, a, b) &&
                up == Put(Put(old(up), mask & LinkUp != 0, a, b), mask & LinkDown != 0, b, a) &&
                down == Put(Put(old(down), mask & LinkUp != 0, b, a), mask & LinkDown != 0, a, b)
      ensures a != Null && b != Null && mask == LinkRight ==>
                right == old(right)[a := b] && left == old(left)[b := a] && up == old(up) && down == old(down)
      ensures a != Null && b != Null && mask == LinkDown ==>
                down == old(down)[a := b] && up == old(up)[b := a] && left == old(left) && right == old(right)
      ensures a != Null && b != Null && mask == LinkUp ==>
                up == old(up)[a := b] && down == old(down)[b := a] && left == old(left) && right == old(right)
    {
      if a == Null || b == Null {
        return;
      }
      if mask & LinkLeft != 0 {
        left := left[a := b];
        right := right[b := a];
      }
      if mask & LinkRight != 0 {
        right := right[a := b];
        left := left[b := a];
      }
      if mask & LinkUp != 0 {
        up := up[a := b];
        down := down[b := a];
      }
      if mask & LinkDown != 0 {
        down := down[a := b];
        up := up[b := a];
      }
    }

    /** The four node_create calls of a new row: data nodes with parents
        cs and row id `row`, at the end of the arena. */
    method CreateRow(row: int, cs: seq<int>) returns (n0: int, n1: int, n2: int, n3: int)
      requires Sized() && |cs| == 4
      modifies this
      ensures Sized() && n0 == |old(left)| && n1 == n0 + 1 && n2 == n0 + 2 && n3 == n0 + 3
      ensures left == old(left) + NoLinks && right == old(right) + NoLinks
      ensures up == old(up) + NoLinks && down == old(down) + NoLinks
      ensures parent == old(parent) + cs && id == old(id) + [row, row, row, row]
      ensures count == old(count) + [0, 0, 0, 0]
    {
      n0 := NodeCreate(DataNode, cs[0], row);
      n1 := NodeCreate(DataNode, cs[1], row);
      n2 := NodeCreate(DataNode, cs[2], row);
      n3 := NodeCreate(DataNode, cs[3], row);
      assert cs == [cs[0], cs[1], cs[2], cs[3]];
    }

    /** The four count increments of a new row, in headers cs, which lie
        before the new nodes. */
    method CountRow(cs: seq<int>)
      requires Below(cs, |count|)
      modifies this`count
      ensures count == Bump(Bump(Bump(Bump(old(count), cs[0]), cs[1]), cs[2]), cs[3])
    {
      count := count[cs[0] := count[cs[0]] + 1];
      count := count[cs[1] := count[cs[1]] + 1];
      count := count[cs[2] := count[cs[2]] + 1];
      count := count[cs[3] := count[cs[3]] + 1];
    }

    /** The first four links of a new row: node L+f goes below the bottom
        of column cs[f]'s list. */
    method HangBelow(cs: seq<int>, L: int)
      requires Sized() && |cs| == 4 && 0 <= L && L + 4 <= |left|
      requires Below(cs, L) && Below([up[cs[0]], up[cs[1]], up[cs[2]], up[cs[3]]], |left|)
      modifies this`left, this`right, this`up, this`down
      ensures Sized() && left == old(left) && right == old(right)
      ensures var t := [old(up)[cs[0]], old(up)[cs[1]], old(up)[cs[2]], old(up)[cs[3]]];
              down == old(down)[t[0] := L][t[1] := L + 1][t[2] := L + 2][t[3] := L + 3] &&
              up == old(up)[L := t[0]][L + 1 := t[1]][L + 2 := t[2]][L + 3 := t[3]]
    {
      LinkNodes(up[cs[0]], L, LinkDown);
      LinkNodes(up[cs[1]], L + 1, LinkDown);
      LinkNodes(up[cs[2]], L + 2, LinkDown);
      LinkNodes(up[cs[3]], L + 3, LinkDown);
    }

    /** The next four: header cs[f] points up at node L+f and the node
        down at the header. */
    method HangAbove(cs: seq<int>, L: int)
      requires Sized() && |cs| == 4 && 0 <= L && L + 4 <= |left|
      requires Below(cs, L)
      modifies this`left, this`right, this`up, this`down
      ensures Sized() && left == old(left) && right == old(right)
      ensures down == old(down)[L := cs[0]][L + 1 := cs[1]][L + 2 := cs[2]][L + 3 := cs[3]]
      ensures up == old(up)[cs[0] := L][cs[1] := L + 1][cs[2] := L + 2][cs[3] := L + 3]
    {
      LinkNodes(cs[0], L, LinkUp);
      LinkNodes(cs[1], L + 1, LinkUp);
      LinkNodes(cs[2], L + 2, LinkUp);
      LinkNodes(cs[3], L + 3, LinkUp);
    }

    /** The last four: the new nodes linked right (and left) in a cycle. */
    method LinkAcross(n0: int, n1: int, n2: int, n3: int)
      requires Sized() && 0 <= n0 < |left| && 0 <= n1 < |left| && 0 <= n2 < |left| && 0 <= n3 < |left|
      modifies this`left, this`right, this`up, this`down
      ensures Sized() && up == old(up) && down == old(down)
      ensures right == old(right)[n0 := n1][n1 := n2][n2 := n3][n3 := n0]
      ensures left == old(left)[n1 := n0][n2 := n1][n3 := n2][n0 := n3]
    {
      LinkNodes(n0, n1, LinkRight);
      LinkNodes(n1, n2, LinkRight);
      LinkNodes(n2, n3, LinkRight);
      LinkNodes(n3, n0, LinkRight);
    }

    /** The body of matrix_create's row loop for a possibility row it
        keeps, whose four constraint headers are cs (cell, row-digit,
        column-digit, box-digit): create the four data nodes, count them
        in their headers, hang each at the bottom of its column and link
        the four across in a cycle. */
    method AddRow(row: int, cs: seq<int>)
      requires Sized() && Tails(Current(), cs)
      requires cs[0] != cs[1] && cs[0] != cs[2] && cs[0] != cs[3] && cs[1] != cs[2] && cs[1] != cs[3] && cs[2] != cs[3]
      modifies this
      ensures Sized()
      ensures Current() == GrowSnap(old(Current()), cs, |old(left)|)
      ensures parent == old(parent) + cs && id == old(id) + [row, row, row, row]
    {
      ghost var S, L := Current(), |left|;
      ghost var t := [S.v.prev[cs[0]], S.v.prev[cs[1]], S.v.prev[cs[2]], S.v.prev[cs[3]]];
      var numNode, rowNode, colNode, boxNode := CreateRow(row, cs);
      CountRow(cs);
      assert up[cs[0]] == t[0] && up[cs[1]] == t[1] && up[cs[2]] == t[2] && up[cs[3]] == t[3];
      LinkRow(cs, numNode);
      RowEffect(S, cs, t, L, right, left, down, up, count);
    }

    /** The twelve link_nodes calls of a new row whose nodes are L..L+3:
        each hangs below the bottom of its column, each header points up
        at its new node, and the four are linked across in a cycle. */
    method LinkRow(cs: seq<int>, L: int)
      requires Sized() && |cs| == 4 && 0 <= L && L + 4 <= |left|
      requires Below(cs, L) && Below([up[cs[0]], up[cs[1]], up[cs[2]], up[cs[3]]], |left|)
      modifies this`left, this`right, this`up, this`down
      ensures Sized()
      ensures var t := [old(up)[cs[0]], old(up)[cs[1]], old(up)[cs[2]], old(up)[cs[3]]];
              down == old(down)[t[0] := L][t[1] := L + 1][t[2] := L + 2][t[3] := L + 3]
                        [L := cs[0]][L + 1 := cs[1]][L + 2 := cs[2]][L + 3 := cs[3]] &&
              up == old(up)[L := t[0]][L + 1 := t[1]][L + 2 := t[2]][L + 3 := t[3]]
                      [cs[0] := L][cs[1] := L + 1][cs[2] := L + 2][cs[3] := L + 3]
      ensures right == old(right)[L := L + 1][L + 1 := L + 2][L + 2 := L + 3][L + 3 := L]
      ensures left == old(left)[L + 1 := L][L + 2 := L + 1][L + 3 := L + 2][L := L + 3]
    {
      HangBelow(cs, L);
      HangAbove(cs, L);
      LinkAcross(L, L + 1, L + 2, L + 3);
    }
  }
}
