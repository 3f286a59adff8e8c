/** Circular doubly linked lists threaded through an arena of nodes.

    The torus keeps two link arrays per direction: `next`/`prev` is
    right/left for the header ring and down/up for a column.  A list is a
    sequence of node indices whose first element is its anchor (the root
    for the header ring, the column header for a column). */
module Links {

  /** One direction of the torus: the successor and predecessor links. */
  datatype Axis = Axis(next: seq<int>, prev: seq<int>)

  predicate Node(a: Axis, x: int) {
    |a.next| == |a.prev| && 0 <= x < |a.next|
  }

  /** The list s is circular in a: following next from s[i] gives s[i+1],
      from the last element gives back the anchor s[0], prev is the
      converse, and no node occurs twice. */
  ghost predicate Circular(a: Axis, s: seq<int>) {
    |s| > 0 && |a.next| == |a.prev| &&
    (forall i :: 0 <= i < |s| ==> 0 <= s[i] < |a.next|) &&
    (forall i, j :: 0 <= i < j < |s| ==> s[i] != s[j]) &&
    (forall i :: 0 <= i < |s| - 1 ==> a.next[s[i]] == s[i + 1] && a.prev[s[i + 1]] == s[i]) &&
    a.next[s[|s| - 1]] == s[0] && a.prev[s[0]] == s[|s| - 1]
  }

  /** x is linked with two neighbours that point back at it. */
  predicate Linked(a: Axis, x: int) {
    Node(a, x) && Node(a, a.prev[x]) && Node(a, a.next[x]) &&
    a.prev[x] != x && a.next[x] != x &&
    a.next[a.prev[x]] == x && a.prev[a.next[x]] == x
  }

  /** The neighbours of the anchor h of the circular list [h] + t. */
  lemma CircularAnchor(a: Axis, h: int, t: seq<int>)
    requires Circular(a, [h] + t)
    ensures a.next[h] == if t == [] then h else t[0]
    ensures a.prev[h] == if t == [] then h else t[|t| - 1]
  {
    var s := [h] + t;
    if t != [] {
      assert s[1] == t[0] && s[|s| - 1] == t[|t| - 1];
    }
  }

  /** The neighbours of t[i] in the circular list [h] + t. */
  lemma CircularAt(a: Axis, h: int, t: seq<int>, i: int)
    requires Circular(a, [h] + t) && 0 <= i < |t|
    ensures 0 <= t[i] < |a.next| && a.next[t[i]] == if i + 1 < |t| then t[i + 1] else h
    ensures a.prev[t[i]] == if i > 0 then t[i - 1] else h
  {
    var s := [h] + t;
    assert s[i + 1] == t[i] && s[i] == (if i > 0 then t[i - 1] else h);
    assert 0 <= t[i] < |a.next|;
    if i + 1 < |t| {
      assert s[i + 2] == t[i + 1];
    }
  }

  /** Cutting x out of its list, as cover does it:
      x.prev.next = x.next, then x.next.prev = x.prev.  The links of x
      itself are left as they are. */
  function SpliceOut(a: Axis, x: int): (b: Axis)
    ensures |b.next| == |a.next| && |b.prev| == |a.prev|
    ensures Spliceable(a, x) ==> b.next[x] == a.next[x]
    ensures Spliceable(a, x) && a.next[x] != x ==> b.prev[x] == a.prev[x]
  {
    if Spliceable(a, x) then
      var next := a.next[a.prev[x] := a.next[x]];
      Axis(next, a.prev[next[x] := a.prev[x]])
    else a
  }

  /** x and both of its neighbours are nodes of the arena (outside the
      arena the splices below change nothing). */
  predicate Spliceable(a: Axis, x: int) {
    Node(a, x) && Node(a, a.prev[x]) && Node(a, a.next[x])
  }

  /** Putting x back between the neighbours it still points at, as uncover
      does it: x.next.prev = x, then x.prev.next = x. */
  function SpliceIn(a: Axis, x: int): (b: Axis)
    ensures |b.next| == |a.next| && |b.prev| == |a.prev|
    ensures Linked(a, x) ==> b == a
  {
    if Spliceable(a, x) then
      var prev := a.prev[a.next[x] := x];
      Axis(a.next[prev[x] := x], prev)
    else a
  }

  /** Splicing a linked node out and back in restores the links exactly. */
  lemma SpliceInverse(a: Axis, x: int)
    requires Linked(a, x)
    ensures SpliceIn(SpliceOut(a, x), x) == a
  {
    var b := SpliceOut(a, x);
    assert b.next[x] == a.next[x] && b.prev[x] == a.prev[x];
    var c := SpliceIn(b, x);
    assert c.prev == a.prev[a.next[x] := a.prev[x]][a.next[x] := x];
    assert c.prev == a.prev;
    assert c.next == a.next[a.prev[x] := a.next[x]][a.prev[x] := x];
    assert c.next == a.next;
  }

  /** Every element of a circular list other than a lone anchor is linked. */
  lemma CircularLinked(a: Axis, s: seq<int>, p: int)
    requires Circular(a, s) && 0 <= p < |s| && |s| > 1
    ensures Linked(a, s[p])
  {
    var x := s[p];
    var pp := if p == 0 then |s| - 1 else p - 1;
    var np := if p == |s| - 1 then 0 else p + 1;
    assert a.prev[x] == s[pp] && a.next[x] == s[np];
    assert s[pp] != x && s[np] != x;
  }

  /** Cutting the p-th element out of a circular list leaves the list
      without it, still circular. */
  lemma SpliceOutCircular(a: Axis, s: seq<int>, p: int)
    requires Circular(a, s) && 1 <= p < |s|
    ensures Linked(a, s[p])
    ensures Circular(SpliceOut(a, s[p]), s[..p] + s[p + 1..])
  {
    var x := s[p];
    var np := if p == |s| - 1 then 0 else p + 1;
    assert a.prev[x] == s[p - 1] && a.next[x] == s[np];
    CircularLinked(a, s, p);
    assert SpliceOut(a, x) == Axis(a.next[s[p - 1] := s[np]], a.prev[s[np] := s[p - 1]]);
    CutCircular(a, s, p);
  }

  /** The two links cover rewrites when it cuts s[p] out of s close the
      list around the gap. */
  lemma CutCircular(a: Axis, s: seq<int>, p: int)
    requires Circular(a, s) && 1 <= p < |s|
    ensures var np := if p == |s| - 1 then 0 else p + 1;
            Circular(Axis(a.next[s[p - 1] := s[np]], a.prev[s[np] := s[p - 1]]), s[..p] + s[p + 1..])
  {
    var np := if p == |s| - 1 then 0 else p + 1;
    var b := Axis(a.next[s[p - 1] := s[np]], a.prev[s[np] := s[p - 1]]);
    var t := s[..p] + s[p + 1..];
    forall i | 0 <= i < |t| - 1
      ensures b.next[t[i]] == t[i + 1] && b.prev[t[i + 1]] == t[i]
    {
      CutLink(a, s, p, i);
    }
    if p == |s| - 1 {
      assert t[|t| - 1] == s[p - 1];
    } else {
      assert t[|t| - 1] == s[|s| - 1];
      assert s[|s| - 1] != s[p - 1];
      assert s[0] != s[np];
    }
    CutDistinct(s, p);
  }

  /** One link of the list after the cut. */
  lemma CutLink(a: Axis, s: seq<int>, p: int, i: int)
    requires Circular(a, s) && 1 <= p < |s| && 0 <= i < |s| - 2
    ensures var np := if p == |s| - 1 then 0 else p + 1;
            var b := Axis(a.next[s[p - 1] := s[np]], a.prev[s[np] := s[p - 1]]);
            var t := s[..p] + s[p + 1..];
            b.next[t[i]] == t[i + 1] && b.prev[t[i + 1]] == t[i]
  {
    var np := if p == |s| - 1 then 0 else p + 1;
    var t := s[..p] + s[p + 1..];
    if i < p - 1 {
      assert t[i] == s[i] && t[i + 1] == s[i + 1];
      assert s[i] != s[p - 1] && s[i + 1] != s[np];
    } else if i == p - 1 {
      assert t[i] == s[p - 1] && t[i + 1] == s[p + 1];
    } else {
      assert t[i] == s[i + 1] && t[i + 1] == s[i + 2];
      assert s[i + 1] != s[p - 1] && s[i + 2] != s[np];
    }
  }

  lemma CutDistinct(s: seq<int>, p: int)
    requires Distinct(s) && 0 <= p < |s|
    ensures Distinct(s[..p] + s[p + 1..])
  {
    var t := s[..p] + s[p + 1..];
    forall i, j | 0 <= i < j < |t| ensures t[i] != t[j] {
      var i' := if i < p then i else i + 1;
      var j' := if j < p then j else j + 1;
      assert t[i] == s[i'] && t[j] == s[j'];
    }
  }

  /** A circular list stays circular when no link of its own nodes changes. */
  lemma CircularFrame(a: Axis, b: Axis, s: seq<int>)
    requires Circular(a, s) && |b.next| == |b.prev| >= |a.next|
    requires forall i :: 0 <= i < |s| ==> b.next[s[i]] == a.next[s[i]] && b.prev[s[i]] == a.prev[s[i]]
    ensures Circular(b, s)
  {
  }

  /** Appending node n at the tail of a circular list s, as the reduction
      does it: tail.down = n, n.up = tail, anchor.up = n, n.down = anchor.
      Stated pointwise, since the reduction interleaves these writes with
      writes to other lists: b may differ from a anywhere, as long as
      s's links other than the tail's next and the anchor's prev are
      kept. */
  lemma AppendAt(a: Axis, b: Axis, s: seq<int>, n: int)
    requires Circular(a, s) && |a.next| <= |b.next| == |b.prev| && 0 <= n < |b.next| && n !in s
    requires forall i :: 0 <= i < |s| - 1 ==> b.next[s[i]] == a.next[s[i]]
    requires forall i :: 1 <= i < |s| ==> b.prev[s[i]] == a.prev[s[i]]
    requires b.next[s[|s| - 1]] == n && b.next[n] == s[0]
    requires b.prev[n] == s[|s| - 1] && b.prev[s[0]] == n
    ensures Circular(b, s + [n])
  {
    var t := s + [n];
    forall i | 0 <= i < |t| - 1
      ensures b.next[t[i]] == t[i + 1] && b.prev[t[i + 1]] == t[i]
    {
      if i < |s| - 1 {
        assert t[i] == s[i] && t[i + 1] == s[i + 1];
      }
    }
    forall i, j | 0 <= i < j < |t| ensures t[i] != t[j] {
      if j == |s| { assert t[i] in s; }
    }
  }

  // ---------------------------------------------------------------------
  // Sequences of nodes with some nodes taken out

  ghost predicate Distinct(s: seq<int>) {
    forall i, j :: 0 <= i < j < |s| ==> s[i] != s[j]
  }

  /** s with every element of xs taken out, order kept. */
  function Except(s: seq<int>, xs: seq<int>): (t: seq<int>)
    ensures |t| <= |s|
  {
    if s == [] then []
    else (if s[0] in xs then [] else [s[0]]) + Except(s[1..], xs)
  }

  /** The elements left are exactly those of s that are not in xs. */
  lemma {:induction false} ExceptMembers(s: seq<int>, xs: seq<int>, y: int)
    ensures y in Except(s, xs) <==> y in s && y !in xs
  {
    if s != [] {
      ExceptMembers(s[1..], xs, y);
      assert s == [s[0]] + s[1..];
    }
  }

  lemma {:induction false} ExceptDistinct(s: seq<int>, xs: seq<int>)
    requires Distinct(s)
    ensures Distinct(Except(s, xs))
  {
    if s != [] {
      var rest := s[1..];
      DistinctTail(s);
      ExceptDistinct(rest, xs);
      var tr := Except(rest, xs);
      forall i | 0 <= i < |tr| ensures tr[i] != s[0] {
        ExceptMembers(rest, xs, tr[i]);
      }
    }
  }

  /** Taking out elements that do not occur changes nothing. */
  lemma {:induction false} ExceptNone(s: seq<int>, xs: seq<int>)
    requires forall i :: 0 <= i < |s| ==> s[i] !in xs
    ensures Except(s, xs) == s
  {
    if s != [] {
      assert s[0] !in xs;
      assert forall i :: 0 <= i < |s[1..]| ==> s[1..][i] == s[i + 1];
      ExceptNone(s[1..], xs);
      assert s == [s[0]] + s[1..];
    }
  }

  /** Taking out one more element y of a list of distinct nodes is cutting
      y out at its position. */
  lemma {:induction false} ExceptSnoc(s: seq<int>, xs: seq<int>, y: int, p: int)
    requires Distinct(s)
    requires 0 <= p < |Except(s, xs)| && Except(s, xs)[p] == y
    ensures Except(s, xs + [y]) == Except(s, xs)[..p] + Except(s, xs)[p + 1..]
  {
    assert s != [];
    var a, rest := s[0], s[1..];
    DistinctTail(s);
    if a in xs {
      assert a in xs + [y];
      ExceptSnoc(rest, xs, y, p);
    } else if a == y {
      ExceptSnocHead(s, xs, p);
    } else {
      assert Except(rest, xs)[p - 1] == y;
      ExceptSnoc(rest, xs, y, p - 1);
      ExceptSnocKeep(s, xs, y, p);
    }
  }

  /** The step of ExceptSnoc past a head that stays. */
  lemma ExceptSnocKeep(s: seq<int>, xs: seq<int>, y: int, p: int)
    requires s != [] && s[0] !in xs && s[0] != y && 1 <= p <= |Except(s[1..], xs)|
    requires Except(s[1..], xs + [y]) == Except(s[1..], xs)[..p - 1] + Except(s[1..], xs)[p..]
    ensures Except(s, xs + [y]) == Except(s, xs)[..p] + Except(s, xs)[p + 1..]
  {
    var a, tr := s[0], Except(s[1..], xs);
    assert Except(s, xs) == [a] + tr;
    assert Except(s, xs + [y]) == [a] + Except(s[1..], xs + [y]);
    ConsSplice(a, tr, Except(s[1..], xs + [y]), p);
  }

  /** Putting a head in front of a list with its p-th element removed
      removes the element at p + 1 of the longer list. */
  lemma ConsSplice(a: int, t: seq<int>, u: seq<int>, p: int)
    requires 1 <= p <= |t| && u == t[..p - 1] + t[p..]
    ensures [a] + u == ([a] + t)[..p] + ([a] + t)[p + 1..]
  {
    var l := [a] + t;
    assert l[..p] == [a] + t[..p - 1];
    assert l[p + 1..] == t[p..];
  }

  /** The step of ExceptSnoc at the head itself. */
  lemma ExceptSnocHead(s: seq<int>, xs: seq<int>, p: int)
    requires Distinct(s) && s != [] && s[0] !in xs
    requires 0 <= p < |Except(s, xs)| && Except(s, xs)[p] == s[0]
    ensures Except(s, xs + [s[0]]) == Except(s, xs)[..p] + Except(s, xs)[p + 1..]
  {
    var a, rest := s[0], s[1..];
    var tr := Except(rest, xs);
    DistinctTail(s);
    assert Except(s, xs) == [a] + tr;
    ExceptMembers(rest, xs, a);
    assert p == 0;
    ExceptSame(rest, xs, a);
    assert a in xs + [a];
  }

  /** The tail of a list of distinct nodes is distinct and lacks the head. */
  lemma DistinctTail(s: seq<int>)
    requires Distinct(s) && s != []
    ensures Distinct(s[1..]) && s[0] !in s[1..]
  {
    var rest := s[1..];
    forall i, j | 0 <= i < j < |rest| ensures rest[i] != rest[j] {
      assert rest[i] == s[i + 1] && rest[j] == s[j + 1];
    }
    forall i | 0 <= i < |rest| ensures rest[i] != s[0] {
      assert rest[i] == s[i + 1];
    }
  }

  /** Adding an element that is not in s to the exceptions changes nothing. */
  lemma {:induction false} ExceptSame(s: seq<int>, xs: seq<int>, y: int)
    requires y !in s
    ensures Except(s, xs + [y]) == Except(s, xs)
  {
    if s != [] {
      ExceptSame(s[1..], xs, y);
    }
  }

  /** Taking out an element that occurs makes the list shorter. */
  lemma {:induction false} ExceptShorter(s: seq<int>, xs: seq<int>, y: int)
    requires y in s && y in xs
    ensures |Except(s, xs)| < |s|
  {
    if s[0] != y {
      ExceptShorter(s[1..], xs, y);
    }
  }

  /** Taking out nothing changes nothing. */
  lemma ExceptEmpty(s: seq<int>)
    ensures Except(s, []) == s
  {
    ExceptNone(s, []);
  }
}
