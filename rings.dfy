/**
 * Circular doubly linked lists stored in an arena of integer-indexed nodes.
 *
 * The solver keeps two families of such rings: the header ring (left/right links
 * between the column list and the column headers) and one vertical ring per column
 * (up/down links between the cells of that column).  `root[y]` names the ring node `y`
 * belongs to by its root node; inside a ring the nodes follow each other by increasing
 * index, starting from the root, which has the smallest index of its ring.
 * A set `p` of "present" nodes then determines where every link of a present node should
 * point: `IsNext(root, p, y, z)` says that `z` follows `y` in the ring once the absent
 * nodes are skipped.
 *
 * Unlinking a node redirects its neighbours around it and leaves its own links alone;
 * relinking writes the node back through its own (possibly stale) links.  The main result,
 * `RelinkInSameOrderRestores`, proves that unlinking a sequence of nodes and then relinking
 * them in the SAME order (not the reversed order) restores every link exactly.
 */
module Rings {

  /** Links of one ring family: `next` is right/down, `prev` is left/up. */
  datatype Links = Links(next: seq<int>, prev: seq<int>)

  /** Every node's root is a root, and is the node of least index in its ring. */
  ghost predicate Rooted(root: seq<int>)
  {
    forall y :: 0 <= y < |root| ==> 0 <= root[y] <= y && root[root[y]] == root[y]
  }

  predicate InRange(s: Links, size: nat)
  {
    && |s.next| == size && |s.prev| == size
    && (forall y :: 0 <= y < size ==> 0 <= s.next[y] < size)
    && (forall y :: 0 <= y < size ==> 0 <= s.prev[y] < size)
  }

  /** `w` is a present node of the ring of `y`. */
  ghost predicate InRing(root: seq<int>, p: set<int>, y: int, w: int)
  {
    0 <= y < |root| && 0 <= w < |root| && w in p && root[w] == root[y]
  }

  /** No present node of `y`'s ring lies strictly between `y` and `z`. */
  ghost predicate NoneBetween(root: seq<int>, p: set<int>, y: int, z: int)
  {
    forall w {:trigger InRing(root, p, y, w)} :: InRing(root, p, y, w) ==> !(y < w < z)
  }

  /** No present node of `y`'s ring comes after `y`. */
  ghost predicate NoneAfter(root: seq<int>, p: set<int>, y: int)
  {
    forall w {:trigger InRing(root, p, y, w)} :: InRing(root, p, y, w) ==> w <= y
  }

  /** Among the present nodes, `z` is the node that follows `y` in their common ring. */
  ghost predicate IsNext(root: seq<int>, p: set<int>, y: int, z: int)
  {
    && 0 <= y < |root| && 0 <= z < |root| && y in p && z in p
    && root[y] == root[z]
    && if y < z then NoneBetween(root, p, y, z) else z == root[z] && NoneAfter(root, p, y)
  }

  /** Every ring root is present, and every present node links to its present neighbours. */
  ghost predicate Ideal(root: seq<int>, p: set<int>, s: Links)
  {
    && InRange(s, |root|)
    && (forall y :: y in p ==> 0 <= y < |root|)
    && (forall y :: 0 <= y < |root| ==> root[y] in p)
    && (forall y {:trigger s.next[y]} :: y in p ==> IsNext(root, p, y, s.next[y]))
    && (forall y {:trigger s.prev[y]} :: y in p ==> IsNext(root, p, s.prev[y], y))
  }

  /** `x.prev.next := x.next; x.next.prev := x.prev`, in that order. */
  function Unlink(s: Links, x: int): (r: Links)
    requires InRange(s, |s.next|) && 0 <= x < |s.next|
    ensures InRange(r, |s.next|)
  {
    var n1 := s.next[s.prev[x] := s.next[x]];
    Links(n1, s.prev[n1[x] := s.prev[x]])
  }

  /** `x.prev.next := x; x.next.prev := x`, in that order. */
  function Relink(s: Links, x: int): (r: Links)
    requires InRange(s, |s.next|) && 0 <= x < |s.next|
    ensures InRange(r, |s.next|)
  {
    var n1 := s.next[s.prev[x] := x];
    Links(n1, s.prev[n1[x] := x])
  }

  ghost predicate AllIn(d: seq<int>, size: int)
  {
    forall i :: 0 <= i < |d| ==> 0 <= d[i] < size
  }

  function UnlinkAll(s: Links, d: seq<int>): (r: Links)
    requires InRange(s, |s.next|) && AllIn(d, |s.next|)
    ensures InRange(r, |s.next|)
    decreases |d|
  {
    if d == [] then s else UnlinkAll(Unlink(s, d[0]), d[1..])
  }

  function RelinkAll(s: Links, d: seq<int>): (r: Links)
    requires InRange(s, |s.next|) && AllIn(d, |s.next|)
    ensures InRange(r, |s.next|)
    decreases |d|
  {
    if d == [] then s else RelinkAll(Relink(s, d[0]), d[1..])
  }

  ghost predicate Distinct(d: seq<int>)
  {
    forall i, j :: 0 <= i < j < |d| ==> d[i] != d[j]
  }

  /** Every link, present or stale, stays inside its own ring. */
  ghost predicate SameRing(root: seq<int>, s: Links)
  {
    && InRange(s, |root|)
    && (forall y :: 0 <= y < |root| ==> root[s.next[y]] == root[y])
    && (forall y :: 0 <= y < |root| ==> root[s.prev[y]] == root[y])
  }

  /**
   * Appending node `|s.next|` at the tail of the ring of root `g`: the new node points back to
   * the old last node and forward to the root, then the old last node and the root point to it.
   */
  function Append(s: Links, g: int): (r: Links)
    requires InRange(s, |s.next|) && 0 <= g < |s.next|
    ensures InRange(r, |s.next| + 1)
  {
    var x := |s.next|;
    var t := s.prev[g];
    Links((s.next + [g])[t := x], (s.prev + [t])[g := x])
  }

  // ---------------------------------------------------------------------------
  // Facts about IsNext

  lemma NextUnique(root: seq<int>, p: set<int>, y: int, z1: int, z2: int)
    ensures IsNext(root, p, y, z1) && IsNext(root, p, y, z2) ==> z1 == z2
  {
    if IsNext(root, p, y, z1) && IsNext(root, p, y, z2) {
      assert InRing(root, p, y, z1) && InRing(root, p, y, z2);
    }
  }

  lemma PrevUnique(root: seq<int>, p: set<int>, y1: int, y2: int, z: int)
    requires Rooted(root)
    ensures IsNext(root, p, y1, z) && IsNext(root, p, y2, z) ==> y1 == y2
  {
    if IsNext(root, p, y1, z) && IsNext(root, p, y2, z) {
      assert InRing(root, p, y1, y2) && InRing(root, p, y2, y1);
    }
  }

  lemma NextSubset(root: seq<int>, p: set<int>, q: set<int>, y: int, z: int)
    requires q <= p && y in q && z in q && IsNext(root, p, y, z)
    ensures IsNext(root, q, y, z)
  {
    if y < z {
      forall w | InRing(root, q, y, w) ensures !(y < w < z) { assert InRing(root, p, y, w); }
    } else {
      forall w | InRing(root, q, y, w) ensures w <= y { assert InRing(root, p, y, w); }
    }
  }

  /** A node that is not a root is never its own neighbour. */
  lemma NotOwnNeighbour(root: seq<int>, p: set<int>, y: int, x: int)
    requires Rooted(root) && 0 <= x < |root| && root[x] != x
    ensures IsNext(root, p, y, x) ==> y != x
    ensures IsNext(root, p, x, y) ==> y != x
  {
  }

  /** Removing `x` joins its two neighbours. */
  lemma SkipRemoved(root: seq<int>, p: set<int>, a: int, x: int, b: int)
    requires Rooted(root) && 0 <= x < |root| && root[x] != x
    requires IsNext(root, p, a, x) && IsNext(root, p, x, b)
    ensures IsNext(root, p - {x}, a, b)
  {
    NotOwnNeighbour(root, p, a, x);
    NotOwnNeighbour(root, p, b, x);
    forall w | InRing(root, p - {x}, a, w) ensures InRing(root, p, a, w) && InRing(root, p, x, w) { }
  }

  /** After unlinking `x`, a remaining node `y` still links forward to its remaining successor. */
  lemma UnlinkNextAt(root: seq<int>, p: set<int>, s: Links, x: int, y: int)
    requires Rooted(root) && InRange(s, |root|) && 0 <= x < |root| && root[x] != x
    requires IsNext(root, p, s.prev[x], x) && IsNext(root, p, x, s.next[x])
    requires 0 <= y < |root| && y in p && y != x && IsNext(root, p, y, s.next[y])
    ensures IsNext(root, p - {x}, y, Unlink(s, x).next[y])
  {
    var a, b := s.prev[x], s.next[x];
    NotOwnNeighbour(root, p, a, x);
    assert Unlink(s, x).next == s.next[a := b];
    if y == a {
      SkipRemoved(root, p, a, x, b);
    } else {
      PrevUnique(root, p, y, a, x);
      NextSubset(root, p, p - {x}, y, s.next[y]);
    }
  }

  /** After unlinking `x`, a remaining node `y` still links back to its remaining predecessor. */
  lemma UnlinkPrevAt(root: seq<int>, p: set<int>, s: Links, x: int, y: int)
    requires Rooted(root) && InRange(s, |root|) && 0 <= x < |root| && root[x] != x
    requires IsNext(root, p, s.prev[x], x) && IsNext(root, p, x, s.next[x])
    requires 0 <= y < |root| && y in p && y != x && IsNext(root, p, s.prev[y], y)
    ensures IsNext(root, p - {x}, Unlink(s, x).prev[y], y)
  {
    var a, b := s.prev[x], s.next[x];
    NotOwnNeighbour(root, p, a, x);
    NotOwnNeighbour(root, p, b, x);
    assert Unlink(s, x).prev == s.prev[b := a];
    if y == b {
      SkipRemoved(root, p, a, x, b);
    } else {
      NextUnique(root, p, x, y, b);
      NextSubset(root, p, p - {x}, s.prev[y], y);
    }
  }

  /** Unlinking a present non-root node keeps the links ideal for the remaining nodes. */
  lemma UnlinkIdeal(root: seq<int>, p: set<int>, s: Links, x: int)
    requires Rooted(root) && Ideal(root, p, s) && x in p && root[x] != x
    ensures Ideal(root, p - {x}, Unlink(s, x))
  {
    assert IsNext(root, p, s.prev[x], x) && IsNext(root, p, x, s.next[x]);
    var t := Unlink(s, x);
    var q := p - {x};
    forall y | 0 <= y < |root|
      ensures root[y] in q
    {
      assert root[root[y]] == root[y];
    }
    forall y {:trigger t.next[y]} | y in q
      ensures IsNext(root, q, y, t.next[y])
    {
      assert IsNext(root, p, y, s.next[y]);
      UnlinkNextAt(root, p, s, x, y);
    }
    forall y {:trigger t.prev[y]} | y in q
      ensures IsNext(root, q, t.prev[y], y)
    {
      assert IsNext(root, p, s.prev[y], y);
      UnlinkPrevAt(root, p, s, x, y);
    }
  }

  lemma {:induction false} UnlinkAllAppend(s: Links, d: seq<int>, e: seq<int>)
    requires InRange(s, |s.next|) && AllIn(d, |s.next|) && AllIn(e, |s.next|)
    ensures AllIn(d + e, |s.next|)
    ensures UnlinkAll(s, d + e) == UnlinkAll(UnlinkAll(s, d), e)
    decreases |d|
  {
    if d == [] {
      assert d + e == e;
    } else {
      assert (d + e)[1..] == d[1..] + e;
      UnlinkAllAppend(Unlink(s, d[0]), d[1..], e);
    }
  }

  lemma UnlinkAllOne(s: Links, x: int)
    requires InRange(s, |s.next|) && 0 <= x < |s.next|
    ensures AllIn([x], |s.next|) && UnlinkAll(s, [x]) == Unlink(s, x)
  {
    assert [x][1..] == [];
  }

  lemma RelinkAllOne(s: Links, x: int)
    requires InRange(s, |s.next|) && 0 <= x < |s.next|
    ensures AllIn([x], |s.next|) && RelinkAll(s, [x]) == Relink(s, x)
  {
    assert [x][1..] == [];
  }

  lemma {:induction false} RelinkAllAppend(s: Links, d: seq<int>, e: seq<int>)
    requires InRange(s, |s.next|) && AllIn(d, |s.next|) && AllIn(e, |s.next|)
    ensures AllIn(d + e, |s.next|)
    ensures RelinkAll(s, d + e) == RelinkAll(RelinkAll(s, d), e)
    decreases |d|
  {
    if d == [] {
      assert d + e == e;
    } else {
      assert (d + e)[1..] == d[1..] + e;
      RelinkAllAppend(Relink(s, d[0]), d[1..], e);
    }
  }

  // ---------------------------------------------------------------------------
  // Unlinking phase

  /** The nodes unlinked by the first `j` steps. */
  ghost function Removed(d: seq<int>, j: nat): set<int>
    requires j <= |d|
  {
    set y | y in d[..j]
  }

  /** `d` lists distinct present nodes, none of them a ring root. */
  ghost predicate Unlinkable(root: seq<int>, p0: set<int>, d: seq<int>)
  {
    && Distinct(d)
    && forall i :: 0 <= i < |d| ==> d[i] in p0 && 0 <= d[i] < |root| && root[d[i]] != d[i]
  }

  /** What holds after unlinking the first `j` nodes of `d`, starting from `s0` ideal for `p0`. */
  ghost predicate UnlinkPhase(root: seq<int>, p0: set<int>, s0: Links, d: seq<int>, j: nat, s: Links)
    requires InRange(s0, |root|) && AllIn(d, |root|) && j <= |d|
  {
    && Ideal(root, p0 - Removed(d, j), s)
    // an unlinked node keeps each starting link whose target was not unlinked before it
    && (forall i :: 0 <= i < j && s0.prev[d[i]] !in d[..i] ==> s.prev[d[i]] == s0.prev[d[i]])
    && (forall i :: 0 <= i < j && s0.next[d[i]] !in d[..i] ==> s.next[d[i]] == s0.next[d[i]])
    // nodes that were absent at the start are never written
    && (forall y :: 0 <= y < |root| && y !in p0 ==> s.next[y] == s0.next[y] && s.prev[y] == s0.prev[y])
  }

  lemma RemovedStep(d: seq<int>, j: int)
    requires 0 <= j
    requires j < |d|
    ensures Removed(d, j + 1) == Removed(d, j) + {d[j]}
  {
    assert d[..j + 1] == d[..j] + [d[j]];
  }

  lemma UnlinkPhaseStep(root: seq<int>, p0: set<int>, s0: Links, d: seq<int>, j: int, s: Links)
    requires 0 <= j
    requires Rooted(root) && Ideal(root, p0, s0) && Unlinkable(root, p0, d)
    requires j < |d| && UnlinkPhase(root, p0, s0, d, j, s)
    ensures UnlinkPhase(root, p0, s0, d, j + 1, Unlink(s, d[j]))
  {
    var x := d[j];
    var pj := p0 - Removed(d, j);
    assert x !in d[..j];
    RemovedStep(d, j);
    assert p0 - Removed(d, j + 1) == pj - {x};
    UnlinkIdeal(root, pj, s, x);
    UnlinkStepFrame(root, p0, s0, d, j, s);
  }

  /** Unlinking step `j` writes only the links of two nodes that are still present. */
  lemma UnlinkStepFrame(root: seq<int>, p0: set<int>, s0: Links, d: seq<int>, j: int, s: Links)
    requires 0 <= j
    requires Rooted(root) && Ideal(root, p0, s0) && Unlinkable(root, p0, d)
    requires j < |d| && UnlinkPhase(root, p0, s0, d, j, s)
    ensures forall i :: 0 <= i < j + 1 && s0.prev[d[i]] !in d[..i] ==> Unlink(s, d[j]).prev[d[i]] == s0.prev[d[i]]
    ensures forall i :: 0 <= i < j + 1 && s0.next[d[i]] !in d[..i] ==> Unlink(s, d[j]).next[d[i]] == s0.next[d[i]]
    ensures forall y :: 0 <= y < |root| && y !in p0 ==> Unlink(s, d[j]).next[y] == s0.next[y] && Unlink(s, d[j]).prev[y] == s0.prev[y]
  {
    var x := d[j];
    var pj := p0 - Removed(d, j);
    var a, b := s.prev[x], s.next[x];
    assert x in pj by { assert x !in d[..j]; }
    assert IsNext(root, pj, a, x) && IsNext(root, pj, x, b);
    NotOwnNeighbour(root, pj, a, x);
    NotOwnNeighbour(root, pj, b, x);
    UnlinkKeepsStart(root, p0, s0, d, j, s);
    forall i | 0 <= i < j
      ensures d[i] != a && d[i] != b
    {
      assert d[..j][i] == d[i];
    }
    UnlinkFrame(s0, s, d, j, a, b, |root|, p0);
  }

  /** The sequence part of `UnlinkStepFrame`: step `j` writes only `next[a]` and `prev[b]`. */
  lemma UnlinkFrame(s0: Links, s: Links, d: seq<int>, j: int, a: int, b: int, size: int, p0: set<int>)
    requires 0 <= j && 0 <= size
    requires InRange(s, size) && InRange(s0, size) && AllIn(d, size) && j < |d|
    requires a == s.prev[d[j]] && b == s.next[d[j]] && a != d[j] && b != d[j] && a in p0 && b in p0
    requires forall i :: 0 <= i < j ==> d[i] != a && d[i] != b
    requires forall i :: 0 <= i < j && s0.prev[d[i]] !in d[..i] ==> s.prev[d[i]] == s0.prev[d[i]]
    requires forall i :: 0 <= i < j && s0.next[d[i]] !in d[..i] ==> s.next[d[i]] == s0.next[d[i]]
    requires s0.prev[d[j]] !in d[..j] ==> s.prev[d[j]] == s0.prev[d[j]]
    requires s0.next[d[j]] !in d[..j] ==> s.next[d[j]] == s0.next[d[j]]
    requires forall y :: 0 <= y < size && y !in p0 ==> s.next[y] == s0.next[y] && s.prev[y] == s0.prev[y]
    ensures forall i :: 0 <= i < j + 1 && s0.prev[d[i]] !in d[..i] ==> Unlink(s, d[j]).prev[d[i]] == s0.prev[d[i]]
    ensures forall i :: 0 <= i < j + 1 && s0.next[d[i]] !in d[..i] ==> Unlink(s, d[j]).next[d[i]] == s0.next[d[i]]
    ensures forall y :: 0 <= y < size && y !in p0 ==> Unlink(s, d[j]).next[y] == s0.next[y] && Unlink(s, d[j]).prev[y] == s0.prev[y]
  {
    var t := Unlink(s, d[j]);
    assert t.next == s.next[a := b] && t.prev == s.prev[b := a];
  }

  /** The node unlinked at step `j` still holds its starting links when their targets are present. */
  lemma UnlinkKeepsStart(root: seq<int>, p0: set<int>, s0: Links, d: seq<int>, j: int, s: Links)
    requires 0 <= j
    requires Rooted(root) && Ideal(root, p0, s0) && Unlinkable(root, p0, d)
    requires j < |d| && UnlinkPhase(root, p0, s0, d, j, s)
    ensures s0.prev[d[j]] !in d[..j] ==> s.prev[d[j]] == s0.prev[d[j]]
    ensures s0.next[d[j]] !in d[..j] ==> s.next[d[j]] == s0.next[d[j]]
  {
    var x := d[j];
    var pj := p0 - Removed(d, j);
    assert x !in d[..j];
    var a0, b0 := s0.prev[x], s0.next[x];
    assert IsNext(root, p0, a0, x) && IsNext(root, p0, x, b0);
    assert IsNext(root, pj, s.prev[x], x) && IsNext(root, pj, x, s.next[x]);
    if a0 !in d[..j] {
      NextSubset(root, p0, pj, a0, x);
      PrevUnique(root, pj, a0, s.prev[x], x);
    }
    if b0 !in d[..j] {
      NextSubset(root, p0, pj, x, b0);
      NextUnique(root, pj, x, b0, s.next[x]);
    }
  }

  lemma UnlinkPhaseStarts(root: seq<int>, p0: set<int>, s0: Links, d: seq<int>)
    requires Rooted(root) && Ideal(root, p0, s0) && Unlinkable(root, p0, d)
    ensures UnlinkPhase(root, p0, s0, d, 0, s0)
  {
    assert Removed(d, 0) == {};
    assert p0 - Removed(d, 0) == p0;
  }

  /** Unlinking the rest of `d` from any state of the phase ends the phase. */
  lemma {:induction false} UnlinkPhaseRest(root: seq<int>, p0: set<int>, s0: Links, d: seq<int>, j: int, s: Links)
    requires 0 <= j
    requires Rooted(root) && Ideal(root, p0, s0) && Unlinkable(root, p0, d)
    requires j <= |d| && UnlinkPhase(root, p0, s0, d, j, s)
    ensures AllIn(d[j..], |root|)
    ensures UnlinkPhase(root, p0, s0, d, |d|, UnlinkAll(s, d[j..]))
    decreases |d| - j
  {
    if j == |d| {
      assert d[j..] == [];
    } else {
      UnlinkPhaseStep(root, p0, s0, d, j, s);
      assert d[j..][1..] == d[j + 1..];
      UnlinkPhaseRest(root, p0, s0, d, j + 1, Unlink(s, d[j]));
    }
  }

  // ---------------------------------------------------------------------------
  // Relinking phase

  /** What holds after relinking the first `j` nodes of `d`; the pending ones are `d[j..]`. */
  ghost predicate RelinkPhase(root: seq<int>, p0: set<int>, s0: Links, d: seq<int>, j: nat, s: Links)
    requires InRange(s0, |root|) && AllIn(d, |root|) && j <= |d|
  {
    && InRange(s, |root|)
    // a starting link is back once its target is no longer pending
    && (forall y :: 0 <= y < |root| && y in p0 && s0.prev[y] !in d[j..] ==> s.prev[y] == s0.prev[y])
    && (forall y :: 0 <= y < |root| && y in p0 && s0.next[y] !in d[j..] ==> s.next[y] == s0.next[y])
    // a pending node still holds its starting links to nodes that are pending after it
    && (forall a, b :: j <= a < b < |d| && s0.prev[d[a]] == d[b] ==> s.prev[d[a]] == d[b])
    && (forall a, b :: j <= a < b < |d| && s0.next[d[a]] == d[b] ==> s.next[d[a]] == d[b])
    && (forall y :: 0 <= y < |root| && y !in p0 ==> s.next[y] == s0.next[y] && s.prev[y] == s0.prev[y])
  }

  lemma RelinkPhaseStarts(root: seq<int>, p0: set<int>, s0: Links, d: seq<int>, s: Links)
    requires Rooted(root) && Ideal(root, p0, s0) && Unlinkable(root, p0, d)
    requires UnlinkPhase(root, p0, s0, d, |d|, s)
    ensures RelinkPhase(root, p0, s0, d, 0, s)
  {
    var pk := p0 - Removed(d, |d|);
    assert d[0..] == d && d[..|d|] == d;
    forall y | 0 <= y < |root| && y in p0 && s0.prev[y] !in d
      ensures s.prev[y] == s0.prev[y]
    {
      if i :| 0 <= i < |d| && d[i] == y {
        assert s0.prev[d[i]] !in d[..i];
      } else {
        assert y in pk;
        var a0 := s0.prev[y];
        assert IsNext(root, p0, a0, y) && IsNext(root, pk, s.prev[y], y);
        NextSubset(root, p0, pk, a0, y);
        PrevUnique(root, pk, a0, s.prev[y], y);
      }
    }
    forall y | 0 <= y < |root| && y in p0 && s0.next[y] !in d
      ensures s.next[y] == s0.next[y]
    {
      if i :| 0 <= i < |d| && d[i] == y {
        assert s0.next[d[i]] !in d[..i];
      } else {
        assert y in pk;
        var b0 := s0.next[y];
        assert IsNext(root, p0, y, b0) && IsNext(root, pk, y, s.next[y]);
        NextSubset(root, p0, pk, y, b0);
        NextUnique(root, pk, y, b0, s.next[y]);
      }
    }
    forall a, b | 0 <= a < b < |d| && s0.prev[d[a]] == d[b]
      ensures s.prev[d[a]] == d[b]
    {
      assert s0.prev[d[a]] !in d[..a];
    }
    forall a, b | 0 <= a < b < |d| && s0.next[d[a]] == d[b]
      ensures s.next[d[a]] == d[b]
    {
      assert s0.next[d[a]] !in d[..a];
    }
  }

  /** At its turn, the node relinked at step `j` holds its starting links, which locate it. */
  lemma RelinkStepLinks(root: seq<int>, p0: set<int>, s0: Links, d: seq<int>, j: int, s: Links)
    requires 0 <= j
    requires Rooted(root) && Ideal(root, p0, s0) && Unlinkable(root, p0, d)
    requires j < |d| && RelinkPhase(root, p0, s0, d, j, s)
    ensures s.prev[d[j]] == s0.prev[d[j]] && s.next[d[j]] == s0.next[d[j]]
    ensures s0.prev[d[j]] != d[j] && s0.next[d[j]] != d[j]
    ensures s0.next[s0.prev[d[j]]] == d[j] && s0.prev[s0.next[d[j]]] == d[j]
    ensures s0.prev[d[j]] in p0 && s0.next[d[j]] in p0
  {
    var x := d[j];
    var a0, b0 := s0.prev[x], s0.next[x];
    assert IsNext(root, p0, a0, x) && IsNext(root, p0, x, b0);
    NotOwnNeighbour(root, p0, a0, x);
    NotOwnNeighbour(root, p0, b0, x);
    if a0 in d[j..] {
      var b :| j <= b < |d| && d[b] == a0;
      assert b != j;
    }
    if b0 in d[j..] {
      var b :| j <= b < |d| && d[b] == b0;
      assert b != j;
    }
    assert IsNext(root, p0, a0, s0.next[a0]) && IsNext(root, p0, s0.prev[b0], b0);
    NextUnique(root, p0, a0, x, s0.next[a0]);
    PrevUnique(root, p0, x, s0.prev[b0], b0);
  }

  lemma RelinkPhaseStep(root: seq<int>, p0: set<int>, s0: Links, d: seq<int>, j: int, s: Links)
    requires 0 <= j
    requires Rooted(root) && Ideal(root, p0, s0) && Unlinkable(root, p0, d)
    requires j < |d| && RelinkPhase(root, p0, s0, d, j, s)
    ensures RelinkPhase(root, p0, s0, d, j + 1, Relink(s, d[j]))
  {
    RelinkStepPrev(root, p0, s0, d, j, s);
    RelinkStepNext(root, p0, s0, d, j, s);
    RelinkStepLinks(root, p0, s0, d, j, s);
    var x := d[j];
    var t := Relink(s, x);
    forall a, b | j + 1 <= a < b < |d| && s0.prev[d[a]] == d[b]
      ensures t.prev[d[a]] == d[b]
    {
      assert d[b] != x;
    }
    forall a, b | j + 1 <= a < b < |d| && s0.next[d[a]] == d[b]
      ensures t.next[d[a]] == d[b]
    {
      assert d[b] != x;
    }
    forall y | 0 <= y < |root| && y !in p0
      ensures t.next[y] == s0.next[y] && t.prev[y] == s0.prev[y]
    {
    }
  }

  /** Relinking step `j` writes `prev` of the node's successor only, restoring it. */
  lemma RelinkStepPrev(root: seq<int>, p0: set<int>, s0: Links, d: seq<int>, j: int, s: Links)
    requires 0 <= j
    requires Rooted(root) && Ideal(root, p0, s0) && Unlinkable(root, p0, d)
    requires j < |d| && RelinkPhase(root, p0, s0, d, j, s)
    ensures Relink(s, d[j]).prev == s.prev[s0.next[d[j]] := d[j]]
    ensures forall y :: 0 <= y < |root| && y in p0 && s0.prev[y] !in d[j + 1..]
                 ==> Relink(s, d[j]).prev[y] == s0.prev[y]
  {
    var x := d[j];
    var b0 := s0.next[x];
    RelinkStepLinks(root, p0, s0, d, j, s);
    assert Relink(s, x).prev == s.prev[b0 := x];
    forall y | 0 <= y < |root| && y in p0 && s0.prev[y] == x
      ensures y == b0
    {
      assert IsNext(root, p0, s0.prev[y], y);
      NextUnique(root, p0, x, y, b0);
    }
    PendingFrame(s0.prev, s.prev, Relink(s, x).prev, d, j, b0, |root|, p0);
  }

  /** Relinking step `j` writes `next` of the node's predecessor only, restoring it. */
  lemma RelinkStepNext(root: seq<int>, p0: set<int>, s0: Links, d: seq<int>, j: int, s: Links)
    requires 0 <= j
    requires Rooted(root) && Ideal(root, p0, s0) && Unlinkable(root, p0, d)
    requires j < |d| && RelinkPhase(root, p0, s0, d, j, s)
    ensures Relink(s, d[j]).next == s.next[s0.prev[d[j]] := d[j]]
    ensures forall y :: 0 <= y < |root| && y in p0 && s0.next[y] !in d[j + 1..]
                 ==> Relink(s, d[j]).next[y] == s0.next[y]
  {
    var x := d[j];
    var a0 := s0.prev[x];
    RelinkStepLinks(root, p0, s0, d, j, s);
    assert Relink(s, x).next == s.next[a0 := x];
    forall y | 0 <= y < |root| && y in p0 && s0.next[y] == x
      ensures y == a0
    {
      assert IsNext(root, p0, y, s0.next[y]);
      PrevUnique(root, p0, y, a0, x);
    }
    PendingFrame(s0.next, s.next, Relink(s, x).next, d, j, a0, |root|, p0);
  }

  /**
   * The sequence part of `RelinkStepPrev` and `RelinkStepNext`: writing `d[j]` into the one link
   * `w` that pointed to `d[j]` at the start restores that link and keeps the others.
   */
  lemma PendingFrame(l0: seq<int>, l: seq<int>, t: seq<int>, d: seq<int>, j: int, w: int, size: int, p0: set<int>)
    requires 0 <= j && 0 <= size
    requires |l0| == size && |l| == size && j < |d| && 0 <= w < size && t == l[w := d[j]] && l0[w] == d[j]
    requires forall y :: 0 <= y < size && y in p0 && l0[y] !in d[j..] ==> l[y] == l0[y]
    requires forall y :: 0 <= y < size && y in p0 && l0[y] == d[j] ==> y == w
    ensures forall y :: 0 <= y < size && y in p0 && l0[y] !in d[j + 1..] ==> t[y] == l0[y]
  {
    assert d[j..] == [d[j]] + d[j + 1..];
  }

  /** Relinking the rest of `d` from any state of the phase gives back the starting links. */
  lemma {:induction false} RelinkPhaseRest(root: seq<int>, p0: set<int>, s0: Links, d: seq<int>, j: int, s: Links)
    requires 0 <= j
    requires Rooted(root) && Ideal(root, p0, s0) && Unlinkable(root, p0, d)
    requires j <= |d| && RelinkPhase(root, p0, s0, d, j, s)
    ensures AllIn(d[j..], |root|)
    ensures RelinkAll(s, d[j..]) == s0
    decreases |d| - j
  {
    if j == |d| {
      assert d[j..] == [];
      assert s.next == s0.next && s.prev == s0.prev;
    } else {
      RelinkPhaseStep(root, p0, s0, d, j, s);
      assert d[j..][1..] == d[j + 1..];
      RelinkPhaseRest(root, p0, s0, d, j + 1, Relink(s, d[j]));
    }
  }

  /**
   * Unlinking distinct present non-root nodes and then relinking them in the same order
   * gives back exactly the links one started from.
   */
  lemma RelinkInSameOrderRestores(root: seq<int>, p0: set<int>, s0: Links, d: seq<int>)
    requires Rooted(root) && Ideal(root, p0, s0) && Unlinkable(root, p0, d)
    ensures AllIn(d, |root|)
    ensures RelinkAll(UnlinkAll(s0, d), d) == s0
  {
    UnlinkPhaseStarts(root, p0, s0, d);
    UnlinkPhaseRest(root, p0, s0, d, 0, s0);
    assert d[0..] == d;
    RelinkPhaseStarts(root, p0, s0, d, UnlinkAll(s0, d));
    RelinkPhaseRest(root, p0, s0, d, 0, UnlinkAll(s0, d));
  }

  /** Relinking the first `j` unlinked nodes of `d` reaches the `j`-th state of the relinking phase. */
  lemma {:induction false} RelinkPhaseAfter(root: seq<int>, p0: set<int>, s0: Links, d: seq<int>, j: int)
    requires 0 <= j
    requires Rooted(root) && Ideal(root, p0, s0) && Unlinkable(root, p0, d) && j <= |d|
    ensures AllIn(d, |root|)
    ensures RelinkPhase(root, p0, s0, d, j, RelinkAll(UnlinkAll(s0, d), d[..j]))
    decreases j
  {
    if j == 0 {
      RelinkPhaseFirst(root, p0, s0, d);
    } else {
      RelinkPhaseAfter(root, p0, s0, d, j - 1);
      RelinkPhaseNext(root, p0, s0, d, j - 1);
    }
  }

  /** Nodes `d` can be unlinked from the rings of `s0` and relinked in the same order. */
  ghost predicate Relinkable(root: seq<int>, p0: set<int>, s0: Links, d: seq<int>)
  {
    Rooted(root) && Ideal(root, p0, s0) && SameRing(root, s0) && Unlinkable(root, p0, d)
  }

  /**
   * Relinking the first `j` unlinked nodes gives back the starting successor of every present node
   * of ring `g` when none of the nodes still to relink is in ring `g`.
   */
  lemma RelinkKeepsRing(root: seq<int>, p0: set<int>, s0: Links, d: seq<int>, j: int, g: int)
    requires Relinkable(root, p0, s0, d) && 0 <= j <= |d|
    requires forall i :: j <= i < |d| ==> root[d[i]] != g
    ensures AllIn(d, |root|)
    ensures forall y :: 0 <= y < |root| && y in p0 && root[y] == g ==> RelinkAll(UnlinkAll(s0, d), d[..j]).next[y] == s0.next[y]
  {
    RelinkPhaseAfter(root, p0, s0, d, j);
    forall y | 0 <= y < |root| && y in p0 && root[y] == g
      ensures RelinkAll(UnlinkAll(s0, d), d[..j]).next[y] == s0.next[y]
    {
      NotPending(root, d, j, s0.next[y], g);
    }
  }

  /** A node of ring `g` is not among the pending nodes `d[j..]` when none of them is in ring `g`. */
  lemma NotPending(root: seq<int>, d: seq<int>, j: int, x: int, g: int)
    requires AllIn(d, |root|) && 0 <= j <= |d| && 0 <= x < |root| && root[x] == g
    requires forall i :: j <= i < |d| ==> root[d[i]] != g
    ensures x !in d[j..]
  {
    forall t | 0 <= t < |d| - j ensures d[j..][t] != x {
      assert d[j..][t] == d[j + t];
    }
  }

  /** One more relinking step from the `j`-th state of the relinking phase. */
  lemma RelinkPhaseNext(root: seq<int>, p0: set<int>, s0: Links, d: seq<int>, j: int)
    requires 0 <= j
    requires Rooted(root) && Ideal(root, p0, s0) && Unlinkable(root, p0, d) && j < |d|
    requires RelinkPhase(root, p0, s0, d, j, RelinkAll(UnlinkAll(s0, d), d[..j]))
    ensures RelinkPhase(root, p0, s0, d, j + 1, RelinkAll(UnlinkAll(s0, d), d[..j + 1]))
  {
    var u := UnlinkAll(s0, d);
    var w := RelinkAll(u, d[..j]);
    RelinkPrefixStep(u, d, j + 1);
    assert RelinkAll(u, d[..j + 1]) == Relink(w, d[j]);
    RelinkPhaseStep(root, p0, s0, d, j, w);
  }

  lemma RelinkPhaseFirst(root: seq<int>, p0: set<int>, s0: Links, d: seq<int>)
    requires Rooted(root) && Ideal(root, p0, s0) && Unlinkable(root, p0, d)
    ensures AllIn(d, |root|)
    ensures RelinkPhase(root, p0, s0, d, 0, RelinkAll(UnlinkAll(s0, d), d[..0]))
  {
    UnlinkPhaseStarts(root, p0, s0, d);
    UnlinkPhaseRest(root, p0, s0, d, 0, s0);
    assert d[0..] == d;
    RelinkPhaseStarts(root, p0, s0, d, UnlinkAll(s0, d));
    assert d[..0] == [];
  }

  lemma RelinkPrefixStep(u: Links, d: seq<int>, j: int)
    requires 0 <= j
    requires InRange(u, |u.next|) && AllIn(d, |u.next|) && 0 < j <= |d|
    ensures RelinkAll(u, d[..j]) == Relink(RelinkAll(u, d[..j - 1]), d[j - 1])
  {
    assert d[..j] == d[..j - 1] + [d[j - 1]];
    RelinkAllAppend(u, d[..j - 1], [d[j - 1]]);
    var w := RelinkAll(u, d[..j - 1]);
    assert RelinkAll(w, [d[j - 1]]) == RelinkAll(Relink(w, d[j - 1]), []);
  }

  /** At the end of the relinking phase every link is back. */
  lemma RelinkPhaseDone(root: seq<int>, p0: set<int>, s0: Links, d: seq<int>, s: Links)
    requires Rooted(root) && Ideal(root, p0, s0) && Unlinkable(root, p0, d)
    requires InRange(s0, |root|) && AllIn(d, |root|) && RelinkPhase(root, p0, s0, d, |d|, s)
    ensures s == s0
  {
    RelinkPhaseRest(root, p0, s0, d, |d|, s);
    assert d[|d|..] == [];
  }

  /** Unlinking distinct present non-root nodes leaves the links ideal for the nodes that remain. */
  lemma UnlinkAllIdeal(root: seq<int>, p0: set<int>, s0: Links, d: seq<int>)
    requires Rooted(root) && Ideal(root, p0, s0) && Unlinkable(root, p0, d)
    ensures AllIn(d, |root|)
    ensures Ideal(root, p0 - (set y | y in d), UnlinkAll(s0, d))
  {
    UnlinkPhaseStarts(root, p0, s0, d);
    UnlinkPhaseRest(root, p0, s0, d, 0, s0);
    assert d[0..] == d && d[..|d|] == d;
  }

  // ---------------------------------------------------------------------------
  // Rings stay apart

  /** Unlinking `x` writes only links of nodes in the ring of `x`, and keeps every link in its ring. */
  lemma UnlinkInRing(root: seq<int>, s: Links, x: int)
    requires SameRing(root, s) && 0 <= x < |root|
    ensures SameRing(root, Unlink(s, x))
    ensures forall w :: 0 <= w < |root| && root[w] != root[x]
              ==> Unlink(s, x).next[w] == s.next[w] && Unlink(s, x).prev[w] == s.prev[w]
  {
  }

  /** Relinking `x` writes only links of nodes in the ring of `x`, and keeps every link in its ring. */
  lemma RelinkInRing(root: seq<int>, s: Links, x: int)
    requires SameRing(root, s) && 0 <= x < |root|
    ensures SameRing(root, Relink(s, x))
    ensures forall w :: 0 <= w < |root| && root[w] != root[x]
              ==> Relink(s, x).next[w] == s.next[w] && Relink(s, x).prev[w] == s.prev[w]
  {
  }

  // ---------------------------------------------------------------------------
  // Building rings by appending

  /** Appending a new node at the tail of a ring keeps the links ideal, with the new node present. */
  lemma AppendIdeal(root: seq<int>, p: set<int>, s: Links, g: int)
    requires Rooted(root) && Ideal(root, p, s) && 0 <= g < |root| && root[g] == g
    ensures Rooted(root + [g])
    ensures Ideal(root + [g], p + {|root|}, Append(s, g))
  {
    var x := |root|;
    var root' := root + [g];
    var p' := p + {x};
    var t := s.prev[g];
    var r := Append(s, g);
    assert g in p;
    assert IsNext(root, p, t, g);
    assert root[t] == g && root[t] <= t;
    assert r.next[t] == x && r.next[x] == g && r.prev[x] == t && r.prev[g] == x;
    assert IsNext(root', p', t, x) by {
      forall w | InRing(root', p', t, w) ensures !(t < w < x) {
        if w != x {
          assert InRing(root, p, t, w);
        }
      }
    }
    assert IsNext(root', p', x, g) by {
      forall w | InRing(root', p', x, w) ensures w <= x { }
    }
    forall y | 0 <= y < |root'|
      ensures root'[y] in p'
    {
      if y < x {
        assert root[root[y]] == root[y];
      }
    }
    forall y {:trigger r.next[y]} | y in p'
      ensures IsNext(root', p', y, r.next[y])
    {
      if y != x && y != t {
        KeepNext(root, p, s, g, y);
      }
    }
    forall y {:trigger r.prev[y]} | y in p'
      ensures IsNext(root', p', r.prev[y], y)
    {
      if y != x && y != g {
        KeepPrev(root, p, s, g, y);
      }
    }
  }

  /** A node other than the old tail keeps its successor when a node is appended. */
  lemma KeepNext(root: seq<int>, p: set<int>, s: Links, g: int, y: int)
    requires Rooted(root) && Ideal(root, p, s) && 0 <= g < |root| && root[g] == g
    requires y in p && y != s.prev[g]
    ensures IsNext(root + [g], p + {|root|}, y, s.next[y])
  {
    var x := |root|;
    var root' := root + [g];
    var p' := p + {x};
    var z := s.next[y];
    var t := s.prev[g];
    assert IsNext(root, p, y, z) && IsNext(root, p, t, g);
    if y < z {
      forall w | InRing(root', p', y, w) ensures !(y < w < z) {
        if w != x {
          assert InRing(root, p, y, w);
        }
      }
    } else {
      assert root[t] == g && root[t] <= t;
      LastUnique(root, p, y, t);
      forall w | InRing(root', p', y, w) ensures w <= y {
        assert InRing(root, p, y, w);
      }
    }
  }

  /** A ring has one last present node. */
  lemma LastUnique(root: seq<int>, p: set<int>, y: int, t: int)
    ensures y in p && NoneAfter(root, p, y) && NoneAfter(root, p, t) && InRing(root, p, y, t) ==> y == t
  {
    if y in p && NoneAfter(root, p, y) && NoneAfter(root, p, t) && InRing(root, p, y, t) {
      assert InRing(root, p, t, y);
    }
  }

  /** A node other than the root keeps its predecessor when a node is appended. */
  lemma KeepPrev(root: seq<int>, p: set<int>, s: Links, g: int, y: int)
    requires Rooted(root) && Ideal(root, p, s) && 0 <= g < |root| && root[g] == g
    requires y in p && y != g
    ensures IsNext(root + [g], p + {|root|}, s.prev[y], y)
  {
    var x := |root|;
    var root' := root + [g];
    var p' := p + {x};
    var a := s.prev[y];
    assert IsNext(root, p, a, y);
    if a < y {
      forall w | InRing(root', p', a, w) ensures !(a < w < y) {
        if w != x {
          assert InRing(root, p, a, w);
        }
      }
    } else {
      forall w | InRing(root', p', a, w) ensures w <= a {
        assert InRing(root, p, a, w);
      }
    }
  }

  ghost predicate OutsideRing(root: seq<int>, d: seq<int>, g: int)
  {
    forall i :: 0 <= i < |d| ==> 0 <= d[i] < |root| && root[d[i]] != g
  }

  /** Unlinking nodes outside the ring of root `g` leaves that ring's links alone. */
  lemma {:induction false} UnlinkAllOutside(root: seq<int>, s: Links, d: seq<int>, g: int)
    requires SameRing(root, s) && OutsideRing(root, d, g)
    ensures AllIn(d, |root|)
    ensures SameRing(root, UnlinkAll(s, d))
    ensures forall w :: 0 <= w < |root| && root[w] == g
              ==> UnlinkAll(s, d).next[w] == s.next[w] && UnlinkAll(s, d).prev[w] == s.prev[w]
    decreases |d|
  {
    if d != [] {
      UnlinkInRing(root, s, d[0]);
      assert OutsideRing(root, d[1..], g) by {
        forall i | 0 <= i < |d[1..]| ensures 0 <= d[1..][i] < |root| && root[d[1..][i]] != g {
          assert d[1..][i] == d[i + 1];
        }
      }
      UnlinkAllOutside(root, Unlink(s, d[0]), d[1..], g);
    }
  }

  /** Relinking nodes outside the ring of root `g` leaves that ring's links alone. */
  lemma {:induction false} RelinkAllOutside(root: seq<int>, s: Links, d: seq<int>, g: int)
    requires SameRing(root, s) && OutsideRing(root, d, g)
    ensures AllIn(d, |root|)
    ensures SameRing(root, RelinkAll(s, d))
    ensures forall w :: 0 <= w < |root| && root[w] == g
              ==> RelinkAll(s, d).next[w] == s.next[w] && RelinkAll(s, d).prev[w] == s.prev[w]
    decreases |d|
  {
    if d != [] {
      RelinkInRing(root, s, d[0]);
      assert OutsideRing(root, d[1..], g) by {
        forall i | 0 <= i < |d[1..]| ensures 0 <= d[1..][i] < |root| && root[d[1..][i]] != g {
          assert d[1..][i] == d[i + 1];
        }
      }
      RelinkAllOutside(root, Relink(s, d[0]), d[1..], g);
    }
  }
}
