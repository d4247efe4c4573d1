/** The neighbour table of a triangulation (main.rs): for every polygon face
    and every cyclically consecutive pair of its vertices (i, j), j becomes a
    neighbour of i and i a neighbour of j; then every neighbour list is sorted
    and its duplicates dropped. Vertices are indices into the point list. */
module Adjacency {
  import opened QhullOutput

  // ---------------------------------------------------------------------
  // Reference definitions

  /** The step from position m of face f to the next position around the
      cycle (the last wraps to the first) joins i and j, in either order. */
  predicate StepJoins(f: Face, m: nat, i: nat, j: nat)
    requires m < |f|
  {
    var a, b := f[m], f[(m + 1) % |f|];
    (a == i && b == j) || (a == j && b == i)
  }

  /** One of the first k steps of face f joins i and j. */
  predicate EdgeBefore(f: Face, k: nat, i: nat, j: nat)
    requires k <= |f|
  {
    k > 0 && (EdgeBefore(f, k - 1, i, j) || StepJoins(f, k - 1, i, j))
  }

  predicate EdgeInFace(f: Face, i: nat, j: nat) {
    EdgeBefore(f, |f|, i, j)
  }

  /** One of the first t faces has i and j consecutive. */
  predicate AdjacentBefore(faces: seq<Face>, t: nat, i: nat, j: nat)
    requires t <= |faces|
  {
    t > 0 && (AdjacentBefore(faces, t - 1, i, j) || EdgeInFace(faces[t - 1], i, j))
  }

  /** i and j are neighbours in the triangulation. */
  predicate Adjacent(faces: seq<Face>, i: nat, j: nat) {
    AdjacentBefore(faces, |faces|, i, j)
  }

  predicate StrictlyIncreasing(s: seq<nat>) {
    forall a, b :: 0 <= a < b < |s| ==> s[a] < s[b]
  }

  predicate Sorted(s: seq<nat>) {
    forall a, b :: 0 <= a < b < |s| ==> s[a] <= s[b]
  }

  /** Every vertex index of every face is a valid point index. */
  predicate IndicesBelow(faces: seq<Face>, n: nat) {
    forall t, k :: 0 <= t < |faces| && 0 <= k < |faces[t]| ==> faces[t][k] < n
  }

  /** What the builder produces: one list per point, each strictly increasing
      (sorted, no duplicates) and holding exactly the point's neighbours. */
  ghost predicate IsNeighborTable(table: seq<seq<nat>>, n: nat, faces: seq<Face>) {
    && |table| == n
    && forall i :: 0 <= i < n ==>
         && StrictlyIncreasing(table[i])
         && forall j :: j in table[i] <==> Adjacent(faces, i, j)
  }

  // ---------------------------------------------------------------------
  // The builder

  /** Sorted insertion, the step of the sort below. */
  function Insert(s: seq<nat>, x: nat): (r: seq<nat>)
    requires Sorted(s)
    ensures Sorted(r) && multiset(r) == multiset(s) + multiset{x}
    ensures r[0] == if s != [] && s[0] < x then s[0] else x
  {
    if s == [] || x <= s[0] then [x] + s
    else
      var rest := Insert(s[1..], x);
      assert s == [s[0]] + s[1..];
      assert multiset([s[0]] + rest) == multiset{s[0]} + multiset(rest);
      [s[0]] + rest
  }

  /** `slice::sort` on one neighbour list: a sorted permutation. */
  method SortList(s: seq<nat>) returns (r: seq<nat>)
    ensures Sorted(r) && multiset(r) == multiset(s)
  {
    r := [];
    for k := 0 to |s|
      invariant Sorted(r) && multiset(r) == multiset(s[..k])
    {
      assert s[..k + 1] == s[..k] + [s[k]];
      r := Insert(r, s[k]);
    }
    assert s[..|s|] == s;
  }

  /** `Vec::dedup`: drop every element equal to the one kept before it. The
      result holds the same values, no two consecutive ones equal, and a
      sorted list becomes strictly increasing. */
  method Dedup(s: seq<nat>) returns (r: seq<nat>)
    ensures forall x :: x in r <==> x in s
    ensures forall a :: 0 <= a < |r| - 1 ==> r[a] != r[a + 1]
    ensures Sorted(s) ==> StrictlyIncreasing(r)
  {
    r := [];
    for k := 0 to |s|
      invariant forall x :: x in r <==> x in s[..k]
      invariant (k == 0) == (r == [])
      invariant k > 0 ==> r[|r| - 1] == s[k - 1]
      invariant forall a :: 0 <= a < |r| - 1 ==> r[a] != r[a + 1]
      invariant Sorted(s) ==> StrictlyIncreasing(r)
    {
      assert s[..k + 1] == s[..k] + [s[k]];
      if r == [] || r[|r| - 1] != s[k] {
        r := r + [s[k]];
      }
    }
    assert s[..|s|] == s;
  }

  /** Sort then dedup one list: strictly increasing, same elements. */
  method SortDedup(list: seq<nat>) returns (r: seq<nat>)
    ensures StrictlyIncreasing(r)
    ensures forall x :: x in r <==> x in list
  {
    var sorted := SortList(list);
    assert forall x :: x in sorted <==> x in multiset(sorted);
    r := Dedup(sorted);
  }

  /** The inner loop for face t: records both directions of each of its
      consecutive pairs, the last vertex paired with the first. */
  method RecordFace(neighbors: array<seq<nat>>, faces: seq<Face>, t: nat)
    requires t < |faces| && IndicesBelow(faces, neighbors.Length)
    requires forall v :: 0 <= v < neighbors.Length ==>
               forall j :: j in neighbors[v] <==> AdjacentBefore(faces, t, v, j)
    modifies neighbors
    ensures forall v :: 0 <= v < neighbors.Length ==>
              forall j :: j in neighbors[v] <==> AdjacentBefore(faces, t + 1, v, j)
  {
    var poly := faces[t];
    for k := 0 to |poly|
      invariant forall v :: 0 <= v < neighbors.Length ==>
                  forall j :: j in neighbors[v] <==> AdjacentBefore(faces, t, v, j) || EdgeBefore(poly, k, v, j)
    {
      var i, j := poly[k], poly[(k + 1) % |poly|];
      ghost var before := neighbors[..];
      neighbors[i] := neighbors[i] + [j];
      neighbors[j] := neighbors[j] + [i];
      assert forall v, w :: 0 <= v < neighbors.Length ==>
               (w in neighbors[v] <==> w in before[v] || (v == i && w == j) || (v == j && w == i));
    }
  }

  /** Builds the neighbour table of the n points from the faces. */
  method BuildNeighbors(n: nat, faces: seq<Face>) returns (table: seq<seq<nat>>)
    requires IndicesBelow(faces, n)
    ensures IsNeighborTable(table, n, faces)
    ensures forall i, a :: 0 <= i < n && 0 <= a < |table[i]| ==> table[i][a] < n
  {
    var neighbors := new seq<nat>[n](_ => []);
    for t := 0 to |faces|
      invariant forall v :: 0 <= v < n ==> forall j :: j in neighbors[v] <==> AdjacentBefore(faces, t, v, j)
    {
      RecordFace(neighbors, faces, t);
    }
    for i := 0 to n
      invariant forall v :: 0 <= v < n ==> forall j :: j in neighbors[v] <==> Adjacent(faces, v, j)
      invariant forall v :: 0 <= v < i ==> StrictlyIncreasing(neighbors[v])
    {
      neighbors[i] := SortDedup(neighbors[i]);
    }
    table := neighbors[..];
    forall i, a | 0 <= i < n && 0 <= a < |table[i]| ensures table[i][a] < n {
      assert Adjacent(faces, i, table[i][a]);
      AdjacentInRange(faces, n, |faces|, i, table[i][a]);
    }
  }

  // ---------------------------------------------------------------------
  // Properties of the table

  lemma {:induction false} AdjacentInRange(faces: seq<Face>, n: nat, t: nat, i: nat, j: nat)
    requires IndicesBelow(faces, n) && t <= |faces|
    requires AdjacentBefore(faces, t, i, j)
    ensures i < n && j < n
  {
    if AdjacentBefore(faces, t - 1, i, j) {
      AdjacentInRange(faces, n, t - 1, i, j);
    } else {
      var m := EdgeStep(faces[t - 1], |faces[t - 1]|, i, j);
    }
  }

  /** A step of the first k that joins i and j, when there is one. */
  lemma {:induction false} EdgeStep(f: Face, k: nat, i: nat, j: nat) returns (m: nat)
    requires k <= |f| && EdgeBefore(f, k, i, j)
    ensures m < k && StepJoins(f, m, i, j)
  {
    if EdgeBefore(f, k - 1, i, j) {
      m := EdgeStep(f, k - 1, i, j);
    } else {
      m := k - 1;
    }
  }

  /** A step of face f below k joins i and j, so the pair is an edge. */
  lemma {:induction false} StepEdge(f: Face, k: nat, m: nat, i: nat, j: nat)
    requires m < k <= |f| && StepJoins(f, m, i, j)
    ensures EdgeBefore(f, k, i, j)
  {
    if m < k - 1 {
      StepEdge(f, k - 1, m, i, j);
    }
  }

  /** Exact contents: i and j are neighbours exactly when they are
      cyclically consecutive, in either order, in some face. */
  lemma AdjacentMeaning(faces: seq<Face>, i: nat, j: nat)
    ensures Adjacent(faces, i, j) <==>
              exists t, m :: 0 <= t < |faces| && 0 <= m < |faces[t]| && StepJoins(faces[t], m, i, j)
  {
    if Adjacent(faces, i, j) {
      var t := FaceWithEdge(faces, |faces|, i, j);
      var m := EdgeStep(faces[t], |faces[t]|, i, j);
    }
    if exists t, m :: 0 <= t < |faces| && 0 <= m < |faces[t]| && StepJoins(faces[t], m, i, j) {
      var t, m :| 0 <= t < |faces| && 0 <= m < |faces[t]| && StepJoins(faces[t], m, i, j);
      StepEdge(faces[t], |faces[t]|, m, i, j);
      FaceEdgeAdjacent(faces, |faces|, t, i, j);
    }
  }

  lemma {:induction false} FaceWithEdge(faces: seq<Face>, u: nat, i: nat, j: nat) returns (t: nat)
    requires u <= |faces| && AdjacentBefore(faces, u, i, j)
    ensures t < u && EdgeInFace(faces[t], i, j)
  {
    if AdjacentBefore(faces, u - 1, i, j) {
      t := FaceWithEdge(faces, u - 1, i, j);
    } else {
      t := u - 1;
    }
  }

  lemma {:induction false} FaceEdgeAdjacent(faces: seq<Face>, u: nat, t: nat, i: nat, j: nat)
    requires t < u <= |faces| && EdgeInFace(faces[t], i, j)
    ensures AdjacentBefore(faces, u, i, j)
  {
    if t < u - 1 {
      FaceEdgeAdjacent(faces, u - 1, t, i, j);
    }
  }

  /** Being neighbours is symmetric, since each pair is recorded both ways. */
  lemma AdjacentSymmetric(faces: seq<Face>, i: nat, j: nat)
    ensures Adjacent(faces, i, j) <==> Adjacent(faces, j, i)
  {
    AdjacentMeaning(faces, i, j);
    AdjacentMeaning(faces, j, i);
    if Adjacent(faces, i, j) {
      var t, m :| 0 <= t < |faces| && 0 <= m < |faces[t]| && StepJoins(faces[t], m, i, j);
      assert StepJoins(faces[t], m, j, i);
    }
    if Adjacent(faces, j, i) {
      var t, m :| 0 <= t < |faces| && 0 <= m < |faces[t]| && StepJoins(faces[t], m, j, i);
      assert StepJoins(faces[t], m, i, j);
    }
  }

  /** Symmetry of the table: j lists i exactly when i lists j. */
  lemma NeighborTableSymmetric(table: seq<seq<nat>>, n: nat, faces: seq<Face>, i: nat, j: nat)
    requires IsNeighborTable(table, n, faces)
    requires i < n && j < n
    ensures j in table[i] <==> i in table[j]
  {
    AdjacentSymmetric(faces, i, j);
  }

  /** Every vertex of a face has at least one neighbour: the next one around
      that face. */
  lemma FaceVertexHasNeighbor(table: seq<seq<nat>>, n: nat, faces: seq<Face>, t: nat, m: nat)
    requires IsNeighborTable(table, n, faces)
    requires t < |faces| && m < |faces[t]| && faces[t][m] < n
    ensures table[faces[t][m]] != []
  {
    var f := faces[t];
    assert StepJoins(f, m, f[m], f[(m + 1) % |f|]);
    AdjacentMeaning(faces, f[m], f[(m + 1) % |f|]);
  }

  /** A point that no face makes adjacent to anything. */
  ghost predicate Isolated(faces: seq<Face>, v: nat) {
    forall j: nat :: !Adjacent(faces, v, j)
  }

  /** A list of the table is empty exactly when its point is isolated. */
  lemma EmptyListIsolated(table: seq<seq<nat>>, n: nat, faces: seq<Face>, v: nat)
    requires IsNeighborTable(table, n, faces) && v < n
    ensures table[v] == [] <==> Isolated(faces, v)
  {
    if table[v] != [] {
      assert table[v][0] in table[v];
    }
  }

  /** Two strictly increasing lists with the same elements are equal. */
  lemma {:induction false} StrictlyIncreasingUnique(s: seq<nat>, u: seq<nat>)
    requires StrictlyIncreasing(s) && StrictlyIncreasing(u)
    requires forall x :: x in s <==> x in u
    ensures s == u
  {
    assert s == [] <==> u == [] by {
      if s != [] {
        assert s[0] in u;
      }
      if u != [] {
        assert u[0] in s;
      }
    }
    if s != [] {
      assert s[0] in u && u[0] in s;
      assert s[0] == u[0];
      assert forall x :: x in s[1..] <==> x in u[1..] by {
        forall x ensures x in s[1..] <==> x in u[1..] {
          if x in s[1..] {
            assert x in u && x != u[0];
          }
          if x in u[1..] {
            assert x in s && x != s[0];
          }
        }
      }
      StrictlyIncreasingUnique(s[1..], u[1..]);
      assert s == [s[0]] + s[1..] && u == [u[0]] + u[1..];
    }
  }

  /** The table is determined by the number of points and by which pairs are
      neighbours: any two tables for the same faces are equal. */
  lemma NeighborTableUnique(a: seq<seq<nat>>, b: seq<seq<nat>>, n: nat, faces: seq<Face>, faces': seq<Face>)
    requires IsNeighborTable(a, n, faces) && IsNeighborTable(b, n, faces')
    requires forall i, j :: Adjacent(faces, i, j) <==> Adjacent(faces', i, j)
    ensures a == b
  {
    forall i | 0 <= i < n ensures a[i] == b[i] {
      StrictlyIncreasingUnique(a[i], b[i]);
    }
  }

  // ---------------------------------------------------------------------
  // Independence from face order and from where each face starts

  /** Which pairs are neighbours depends only on which faces occur. */
  lemma AdjacentFaceOrder(faces: seq<Face>, faces': seq<Face>, i: nat, j: nat)
    requires forall f :: f in faces <==> f in faces'
    ensures Adjacent(faces, i, j) <==> Adjacent(faces', i, j)
  {
    AdjacentMeaning(faces, i, j);
    AdjacentMeaning(faces', i, j);
    if Adjacent(faces, i, j) {
      var t, m :| 0 <= t < |faces| && 0 <= m < |faces[t]| && StepJoins(faces[t], m, i, j);
      assert faces[t] in faces';
      var t' :| 0 <= t' < |faces'| && faces'[t'] == faces[t];
    }
    if Adjacent(faces', i, j) {
      var t, m :| 0 <= t < |faces'| && 0 <= m < |faces'[t]| && StepJoins(faces'[t], m, i, j);
      assert faces'[t] in faces;
      var t' :| 0 <= t' < |faces| && faces[t'] == faces'[t];
    }
  }

  /** Reordering the faces (or repeating one) leaves the table unchanged. */
  lemma NeighborTableFaceOrder(table: seq<seq<nat>>, n: nat, faces: seq<Face>, faces': seq<Face>)
    requires IsNeighborTable(table, n, faces)
    requires forall f :: f in faces <==> f in faces'
    ensures IsNeighborTable(table, n, faces')
  {
    forall i, j ensures Adjacent(faces, i, j) <==> Adjacent(faces', i, j) {
      AdjacentFaceOrder(faces, faces', i, j);
    }
  }

  /** The same cycle started at position r. */
  function Rotate(f: Face, r: nat): (g: Face)
    requires r <= |f|
    ensures |g| == |f|
  {
    f[r..] + f[..r]
  }

  lemma ModBelowTwice(a: nat, L: nat)
    requires 0 < L && a < 2 * L
    ensures a % L == if a < L then a else a - L
  {
  }

  lemma RotateAt(f: Face, r: nat, k: nat)
    requires r <= |f| && k < |f|
    ensures Rotate(f, r)[k] == f[(k + r) % |f|]
  {
    var L := |f|;
    ModBelowTwice(k + r, L);
    if k < L - r {
      assert Rotate(f, r)[k] == f[r..][k];
    } else {
      assert Rotate(f, r)[k] == f[..r][k - (L - r)];
    }
  }

  /** Step m of the rotated face is step (m + r) mod |f| of the face. */
  lemma RotateStep(f: Face, r: nat, m: nat, i: nat, j: nat)
    requires r <= |f| && m < |f|
    ensures StepJoins(Rotate(f, r), m, i, j) <==> StepJoins(f, (m + r) % |f|, i, j)
  {
    var L := |f|;
    var m1 := (m + 1) % L;
    var p := (m + r) % L;
    ModBelowTwice(m + 1, L);
    ModBelowTwice(m + r, L);
    ModBelowTwice(m1 + r, L);
    ModBelowTwice(p + 1, L);
    RotateAt(f, r, m);
    RotateAt(f, r, m1);
    assert (m1 + r) % L == (p + 1) % L;
  }

  /** A face has the same edges wherever its cycle starts. */
  lemma RotateEdges(f: Face, r: nat, i: nat, j: nat)
    requires r <= |f|
    ensures EdgeInFace(Rotate(f, r), i, j) <==> EdgeInFace(f, i, j)
  {
    var g := Rotate(f, r);
    var L := |f|;
    if EdgeInFace(g, i, j) {
      var m := EdgeStep(g, L, i, j);
      RotateStep(f, r, m, i, j);
      StepEdge(f, L, (m + r) % L, i, j);
    }
    if EdgeInFace(f, i, j) {
      var m' := EdgeStep(f, L, i, j);
      var m := if m' >= r then m' - r else m' + L - r;
      ModBelowTwice(m + r, L);
      RotateStep(f, r, m, i, j);
      StepEdge(g, L, m, i, j);
    }
  }

  /** Faces with the same edges, one by one, give the same neighbours. */
  lemma {:induction false} AdjacentFacewise(faces: seq<Face>, faces': seq<Face>, u: nat, i: nat, j: nat)
    requires u <= |faces| == |faces'|
    requires forall s :: 0 <= s < |faces| ==> (EdgeInFace(faces[s], i, j) <==> EdgeInFace(faces'[s], i, j))
    ensures AdjacentBefore(faces, u, i, j) <==> AdjacentBefore(faces', u, i, j)
  {
    if u > 0 {
      AdjacentFacewise(faces, faces', u - 1, i, j);
    }
  }

  /** Starting any one face at another vertex leaves the table unchanged. */
  lemma NeighborTableRotation(table: seq<seq<nat>>, n: nat, faces: seq<Face>, t: nat, r: nat)
    requires IsNeighborTable(table, n, faces)
    requires t < |faces| && r <= |faces[t]|
    ensures IsNeighborTable(table, n, faces[t := Rotate(faces[t], r)])
  {
    var faces' := faces[t := Rotate(faces[t], r)];
    forall i, j ensures Adjacent(faces, i, j) <==> Adjacent(faces', i, j) {
      RotateEdges(faces[t], r, i, j);
      AdjacentFacewise(faces, faces', |faces|, i, j);
    }
  }

  // ---------------------------------------------------------------------
  // Small cases

  /** A single triangle (0, 1, 2): each vertex has the other two as
      neighbours. */
  lemma TriangleTable()
    ensures IsNeighborTable([[1, 2], [0, 2], [0, 1]], 3, [[0, 1, 2]])
  {
    var f: Face := [0, 1, 2];
    assert StepJoins(f, 0, 0, 1) && StepJoins(f, 1, 1, 2) && StepJoins(f, 2, 2, 0);
    forall i: nat, j: nat ensures Adjacent([f], i, j) <==> (i < 3 && j < 3 && i != j) {
      AdjacentMeaning([f], i, j);
      if i < 3 && j < 3 && i != j {
        var m := if (i == 0 && j == 1) || (i == 1 && j == 0) then 0
                 else if (i == 1 && j == 2) || (i == 2 && j == 1) then 1 else 2;
        assert StepJoins(f, m, i, j);
      }
    }
  }

  /** The same triangle listed from another vertex gives the same table. */
  lemma TriangleTableRotated()
    ensures IsNeighborTable([[1, 2], [0, 2], [0, 1]], 3, [[1, 2, 0]])
    ensures IsNeighborTable([[1, 2], [0, 2], [0, 1]], 3, [[2, 0, 1]])
  {
    var table, faces: seq<Face> := [[1, 2], [0, 2], [0, 1]], [[0, 1, 2]];
    TriangleTable();
    var f: Face := [0, 1, 2];
    assert f[1..] == [1, 2] && f[..1] == [0] && f[2..] == [2] && f[..2] == [0, 1];
    var g1, g2: Face := Rotate(f, 1), Rotate(f, 2);
    assert g1 == [1, 2, 0] && g2 == [2, 0, 1];
    NeighborTableRotation(table, 3, faces, 0, 1);
    assert faces[0 := g1] == [g1];
    NeighborTableRotation(table, 3, faces, 0, 2);
    assert faces[0 := g2] == [g2];
  }

  /** A face of one vertex pairs it with itself (its successor around the
      cycle is itself), so the vertex becomes its own neighbour. */
  lemma SingleVertexFace(table: seq<seq<nat>>, n: nat, a: nat)
    requires a < n && IsNeighborTable(table, n, [[a]])
    ensures table[a] == [a]
  {
    assert StepJoins([a], 0, a, a);
    forall j ensures j in table[a] <==> j == a {
      AdjacentMeaning([[a]], a, j);
    }
    StrictlyIncreasingUnique(table[a], [a]);
  }
}
