/** Laplace smoothing of the mesh (main.rs): Gauss-Seidel sweeps that move
    every free point (index n_fixed and up), in ascending order, to the mean
    of its neighbours' current positions, reading neighbours that this sweep
    has already moved. Smoothing stops after a sweep whose root-sum-squared
    displacement is below eps, or after the sweep cap. */
module Smoothing {
  import opened Points

  /** Neighbour lists index points: one list per point, entries in range. */
  predicate ValidTable(nb: seq<seq<nat>>, n: nat) {
    && |nb| == n
    && forall i, a :: 0 <= i < n && 0 <= a < |nb[i]| ==> nb[i][a] < n
  }

  /** Every free point has a neighbour, so its mean is defined. */
  predicate FreeHaveNeighbors(nb: seq<seq<nat>>, nFixed: nat) {
    forall i :: nFixed <= i < |nb| ==> nb[i] != []
  }

  predicate InRange(ps: seq<Point>, list: seq<nat>) {
    forall a :: 0 <= a < |list| ==> list[a] < |ps|
  }

  /** Sum of the listed points, accumulated from the front; a single listed
      point is its own sum. */
  function SumOf(ps: seq<Point>, list: seq<nat>): (r: Point)
    requires InRange(ps, list)
    ensures |list| == 1 ==> r == ps[list[0]]
  {
    if list == [] then Point(0.0, 0.0)
    else Add(SumOf(ps, list[..|list| - 1]), ps[list[|list| - 1]])
  }

  /** The centroid of the listed points; a point with a single neighbour
      moves onto it. */
  function Mean(ps: seq<Point>, list: seq<nat>): (r: Point)
    requires InRange(ps, list) && list != []
    ensures |list| == 1 ==> r == ps[list[0]]
  {
    var s := SumOf(ps, list);
    Point(s.x / |list| as real, s.y / |list| as real)
  }

  /** Every listed point is c. */
  predicate AllAt(ps: seq<Point>, list: seq<nat>, c: Point)
    requires InRange(ps, list)
  {
    forall a :: 0 <= a < |list| ==> ps[list[a]] == c
  }

  /** n copies of one point add up to n times that point. */
  lemma {:induction false} SumOfCoincident(ps: seq<Point>, list: seq<nat>, c: Point)
    requires InRange(ps, list) && AllAt(ps, list, c)
    ensures SumOf(ps, list) == Point(|list| as real * c.x, |list| as real * c.y)
  {
    if list != [] {
      var init := list[..|list| - 1];
      assert AllAt(ps, init, c);
      SumOfCoincident(ps, init, c);
    }
  }

  /** Neighbours that all sit at one point have that point as their mean. */
  lemma MeanOfCoincident(ps: seq<Point>, list: seq<nat>, c: Point)
    requires InRange(ps, list) && list != [] && AllAt(ps, list, c)
    ensures Mean(ps, list) == c
  {
    SumOfCoincident(ps, list, c);
  }

  /** First index a sweep updates: n_fixed, or none when n_fixed is past the end. */
  function FirstFree(n: nat, nFixed: nat): nat {
    if nFixed <= n then nFixed else n
  }

  /** Points and accumulated squared displacement during a sweep. */
  datatype SweepState = SweepState(points: seq<Point>, change: real)

  /** The sweep after it has updated the free points below m, in ascending
      order, each from the points as they are at that moment. */
  function SweepUpTo(ps: seq<Point>, nb: seq<seq<nat>>, nFixed: nat, m: nat): (r: SweepState)
    requires ValidTable(nb, |ps|) && FreeHaveNeighbors(nb, nFixed)
    requires FirstFree(|ps|, nFixed) <= m <= |ps|
    ensures |r.points| == |ps| && r.change >= 0.0
    ensures forall k :: 0 <= k < |ps| && (k < nFixed || m <= k) ==> r.points[k] == ps[k]
    decreases m
  {
    if m == FirstFree(|ps|, nFixed) then SweepState(ps, 0.0)
    else
      var s := SweepUpTo(ps, nb, nFixed, m - 1);
      var q := Mean(s.points, nb[m - 1]);
      SweepState(s.points[m - 1 := q], s.change + DistSq(s.points[m - 1], q))
  }

  /** One full Gauss-Seidel sweep: it keeps the number of points and the
      fixed points, and its change is never negative. */
  function Sweep(ps: seq<Point>, nb: seq<seq<nat>>, nFixed: nat): (r: SweepState)
    requires ValidTable(nb, |ps|) && FreeHaveNeighbors(nb, nFixed)
    ensures |r.points| == |ps| && r.change >= 0.0
    ensures forall k :: 0 <= k < |ps| && k < nFixed ==> r.points[k] == ps[k]
  {
    SweepUpTo(ps, nb, nFixed, |ps|)
  }

  /** Outcome of smoothing: the points, the sweeps run, and whether the last
      sweep met the convergence test. */
  datatype Relaxation = Relaxation(points: seq<Point>, sweeps: nat, converged: bool)

  /** At most `steps` sweeps, stopping after the first one whose
      root-sum-squared displacement is below eps. */
  function Relax(ps: seq<Point>, nb: seq<seq<nat>>, nFixed: nat, steps: nat, eps: real): (r: Relaxation)
    requires ValidTable(nb, |ps|) && FreeHaveNeighbors(nb, nFixed)
    ensures |r.points| == |ps|
    ensures forall k :: 0 <= k < |ps| && k < nFixed ==> r.points[k] == ps[k]
    ensures r.sweeps <= steps
    ensures r.converged ==> r.sweeps >= 1
    ensures !r.converged ==> r.sweeps == steps
    decreases steps
  {
    if steps == 0 then Relaxation(ps, 0, false)
    else
      var s := Sweep(ps, nb, nFixed);
      if RootBelow(s.change, eps) then Relaxation(s.points, 1, true)
      else
        var r := Relax(s.points, nb, nFixed, steps - 1, eps);
        Relaxation(r.points, r.sweeps + 1, r.converged)
  }

  // ---------------------------------------------------------------------
  // Properties of a sweep and of smoothing

  /** The summed squared displacement from ps to out over indices lo .. hi-1. */
  function Moved(ps: seq<Point>, out: seq<Point>, lo: nat, hi: nat): (r: real)
    requires lo <= hi <= |ps| == |out|
    ensures r >= 0.0
    decreases hi
  {
    if hi == lo then 0.0 else Moved(ps, out, lo, hi - 1) + DistSq(ps[hi - 1], out[hi - 1])
  }

  /** The displacement is zero exactly when no point in the range moved. */
  lemma {:induction false} MovedZero(ps: seq<Point>, out: seq<Point>, lo: nat, hi: nat)
    requires lo <= hi <= |ps| == |out|
    ensures Moved(ps, out, lo, hi) == 0.0 <==> forall k :: lo <= k < hi ==> out[k] == ps[k]
    decreases hi
  {
    if hi > lo {
      MovedZero(ps, out, lo, hi - 1);
    }
  }

  /** The displacement over a range depends only on the points in it. */
  lemma {:induction false} MovedAgree(ps: seq<Point>, out: seq<Point>, out': seq<Point>, lo: nat, hi: nat)
    requires lo <= hi <= |ps| == |out| == |out'|
    requires forall k :: lo <= k < hi ==> out[k] == out'[k]
    ensures Moved(ps, out, lo, hi) == Moved(ps, out', lo, hi)
    decreases hi
  {
    if hi > lo {
      MovedAgree(ps, out, out', lo, hi - 1);
    }
  }

  /** Moving point m-1 to q adds its squared displacement to the total. */
  lemma MovedUpdate(ps: seq<Point>, out: seq<Point>, lo: nat, m: nat, q: Point)
    requires lo < m <= |ps| == |out|
    ensures Moved(ps, out[m - 1 := q], lo, m) == Moved(ps, out, lo, m - 1) + DistSq(ps[m - 1], q)
  {
    MovedAgree(ps, out, out[m - 1 := q], lo, m - 1);
  }

  /** The change a sweep accumulates is the summed squared displacement of
      the points it has updated, each measured from its position before the
      sweep. */
  lemma {:induction false} SweepUpToChange(ps: seq<Point>, nb: seq<seq<nat>>, nFixed: nat, m: nat)
    requires ValidTable(nb, |ps|) && FreeHaveNeighbors(nb, nFixed)
    requires FirstFree(|ps|, nFixed) <= m <= |ps|
    ensures SweepUpTo(ps, nb, nFixed, m).change
            == Moved(ps, SweepUpTo(ps, nb, nFixed, m).points, FirstFree(|ps|, nFixed), m)
    decreases m
  {
    var lo := FirstFree(|ps|, nFixed);
    if m > lo {
      SweepUpToChange(ps, nb, nFixed, m - 1);
      var s := SweepUpTo(ps, nb, nFixed, m - 1);
      var q := Mean(s.points, nb[m - 1]);
      assert s.points[m - 1] == ps[m - 1];
      var r := SweepUpTo(ps, nb, nFixed, m);
      assert r.points == s.points[m - 1 := q];
      assert r.change == s.change + DistSq(ps[m - 1], q);
      MovedUpdate(ps, s.points, lo, m, q);
    }
  }

  /** A sweep reports zero change exactly when it moved no point. */
  lemma SweepChangeZero(ps: seq<Point>, nb: seq<seq<nat>>, nFixed: nat)
    requires ValidTable(nb, |ps|) && FreeHaveNeighbors(nb, nFixed)
    ensures Sweep(ps, nb, nFixed).change == 0.0 <==> Sweep(ps, nb, nFixed).points == ps
  {
    SweepUpToChange(ps, nb, nFixed, |ps|);
    MovedZero(ps, Sweep(ps, nb, nFixed).points, FirstFree(|ps|, nFixed), |ps|);
  }

  /** Updates after index k leave the points up to k as they were. */
  lemma {:induction false} SweepUpToStable(ps: seq<Point>, nb: seq<seq<nat>>, nFixed: nat, m: nat, m': nat, k: nat)
    requires ValidTable(nb, |ps|) && FreeHaveNeighbors(nb, nFixed)
    requires FirstFree(|ps|, nFixed) <= m <= m' <= |ps| && k < m
    ensures SweepUpTo(ps, nb, nFixed, m').points[k] == SweepUpTo(ps, nb, nFixed, m).points[k]
    decreases m'
  {
    if m < m' {
      SweepUpToStable(ps, nb, nFixed, m, m' - 1, k);
    }
  }

  /** Gauss-Seidel order: free point i ends at the mean of its neighbours as
      they are when i is reached, which is their new position for indices
      below i and their old one from i on. */
  lemma SweepGaussSeidel(ps: seq<Point>, nb: seq<seq<nat>>, nFixed: nat, i: nat)
    requires ValidTable(nb, |ps|) && FreeHaveNeighbors(nb, nFixed)
    requires nFixed <= i < |ps|
    ensures var mid, out := SweepUpTo(ps, nb, nFixed, i).points, Sweep(ps, nb, nFixed).points;
            && out[i] == Mean(mid, nb[i])
            && forall j :: 0 <= j < |ps| ==> mid[j] == if j < i then out[j] else ps[j]
  {
    var mid, out := SweepUpTo(ps, nb, nFixed, i).points, Sweep(ps, nb, nFixed).points;
    SweepUpToStable(ps, nb, nFixed, i + 1, |ps|, i);
    forall j | 0 <= j < i ensures mid[j] == out[j] {
      SweepUpToStable(ps, nb, nFixed, i, |ps|, j);
    }
  }

  /** k full sweeps with no convergence test. */
  function Iterate(ps: seq<Point>, nb: seq<seq<nat>>, nFixed: nat, k: nat): (r: seq<Point>)
    requires ValidTable(nb, |ps|) && FreeHaveNeighbors(nb, nFixed)
    ensures |r| == |ps|
    decreases k
  {
    if k == 0 then ps else Iterate(Sweep(ps, nb, nFixed).points, nb, nFixed, k - 1)
  }

  /** Smoothing computes plain sweeps: its points are those of as many
      sweeps as it reports. */
  lemma {:induction false} RelaxIsIterate(ps: seq<Point>, nb: seq<seq<nat>>, nFixed: nat, steps: nat, eps: real)
    requires ValidTable(nb, |ps|) && FreeHaveNeighbors(nb, nFixed)
    ensures Relax(ps, nb, nFixed, steps, eps).points == Iterate(ps, nb, nFixed, Relax(ps, nb, nFixed, steps, eps).sweeps)
    decreases steps
  {
    if steps > 0 {
      var s := Sweep(ps, nb, nFixed);
      if !RootBelow(s.change, eps) {
        RelaxIsIterate(s.points, nb, nFixed, steps - 1, eps);
        var rest := Relax(s.points, nb, nFixed, steps - 1, eps);
        assert Iterate(ps, nb, nFixed, rest.sweeps + 1) == Iterate(s.points, nb, nFixed, rest.sweeps);
      }
    }
  }

  /** Smoothing stops at the first sweep that meets the convergence test:
      every sweep before the last one failed it. */
  lemma {:induction false} RelaxFailedBefore(ps: seq<Point>, nb: seq<seq<nat>>, nFixed: nat, steps: nat, eps: real)
    requires ValidTable(nb, |ps|) && FreeHaveNeighbors(nb, nFixed)
    ensures var r := Relax(ps, nb, nFixed, steps, eps);
            forall l :: 0 <= l < r.sweeps - 1 ==> !RootBelow(Sweep(Iterate(ps, nb, nFixed, l), nb, nFixed).change, eps)
    decreases steps
  {
    if steps > 0 {
      var s := Sweep(ps, nb, nFixed);
      if !RootBelow(s.change, eps) {
        RelaxFailedBefore(s.points, nb, nFixed, steps - 1, eps);
        var rest := Relax(s.points, nb, nFixed, steps - 1, eps);
        forall l | 0 <= l < rest.sweeps
          ensures !RootBelow(Sweep(Iterate(ps, nb, nFixed, l), nb, nFixed).change, eps)
        {
          if l > 0 {
            assert Iterate(ps, nb, nFixed, l) == Iterate(s.points, nb, nFixed, l - 1);
          }
        }
      }
    }
  }

  /** Smoothing reports convergence exactly when its last sweep met the test. */
  lemma {:induction false} RelaxLastSweep(ps: seq<Point>, nb: seq<seq<nat>>, nFixed: nat, steps: nat, eps: real)
    requires ValidTable(nb, |ps|) && FreeHaveNeighbors(nb, nFixed)
    ensures var r := Relax(ps, nb, nFixed, steps, eps);
            r.sweeps > 0 ==> (r.converged <==> RootBelow(Sweep(Iterate(ps, nb, nFixed, r.sweeps - 1), nb, nFixed).change, eps))
    decreases steps
  {
    if steps > 0 {
      var s := Sweep(ps, nb, nFixed);
      if !RootBelow(s.change, eps) {
        RelaxLastSweep(s.points, nb, nFixed, steps - 1, eps);
        var rest := Relax(s.points, nb, nFixed, steps - 1, eps);
        if rest.sweeps > 0 {
          assert Iterate(ps, nb, nFixed, rest.sweeps) == Iterate(s.points, nb, nFixed, rest.sweeps - 1);
        }
      }
    }
  }

  /** Every free point already sits at the mean of its neighbours. */
  predicate AtEquilibrium(ps: seq<Point>, nb: seq<seq<nat>>, nFixed: nat)
    requires ValidTable(nb, |ps|) && FreeHaveNeighbors(nb, nFixed)
  {
    forall i {:trigger Mean(ps, nb[i])} :: nFixed <= i < |ps| ==> ps[i] == Mean(ps, nb[i])
  }

  /** A sweep step that finds its point already at the mean leaves the
      sweep's points and change as they were. */
  lemma SweepStepAtMean(ps: seq<Point>, nb: seq<seq<nat>>, nFixed: nat, m: nat)
    requires ValidTable(nb, |ps|) && FreeHaveNeighbors(nb, nFixed)
    requires FirstFree(|ps|, nFixed) < m <= |ps|
    requires SweepUpTo(ps, nb, nFixed, m - 1) == SweepState(ps, 0.0)
    requires Mean(ps, nb[m - 1]) == ps[m - 1]
    ensures SweepUpTo(ps, nb, nFixed, m) == SweepState(ps, 0.0)
  {
    var p := ps[m - 1];
    assert DistSq(p, p) == 0.0;
    assert ps[m - 1 := p] == ps;
  }

  lemma {:induction false} SweepUpToAtEquilibrium(ps: seq<Point>, nb: seq<seq<nat>>, nFixed: nat, m: nat)
    requires ValidTable(nb, |ps|) && FreeHaveNeighbors(nb, nFixed)
    requires AtEquilibrium(ps, nb, nFixed)
    requires FirstFree(|ps|, nFixed) <= m <= |ps|
    ensures SweepUpTo(ps, nb, nFixed, m) == SweepState(ps, 0.0)
    decreases m
  {
    if m > FirstFree(|ps|, nFixed) {
      SweepUpToAtEquilibrium(ps, nb, nFixed, m - 1);
      assert nFixed <= m - 1 < |ps|;
      SweepStepAtMean(ps, nb, nFixed, m);
    }
  }

  /** At equilibrium a sweep moves nothing, so with a positive threshold
      smoothing stops after one sweep with the points unchanged. */
  lemma RelaxAtEquilibrium(ps: seq<Point>, nb: seq<seq<nat>>, nFixed: nat, steps: nat, eps: real)
    requires ValidTable(nb, |ps|) && FreeHaveNeighbors(nb, nFixed)
    requires AtEquilibrium(ps, nb, nFixed)
    requires steps > 0 && eps > 0.0
    ensures Sweep(ps, nb, nFixed) == SweepState(ps, 0.0)
    ensures Relax(ps, nb, nFixed, steps, eps) == Relaxation(ps, 1, true)
  {
    SweepUpToAtEquilibrium(ps, nb, nFixed, |ps|);
    SquareSign(eps);
  }

  /** The neighbour sum of the inner loop: the listed points added up. */
  method NeighborSum(ps: array<Point>, list: seq<nat>) returns (x: real, y: real)
    requires InRange(ps[..], list)
    ensures Point(x, y) == SumOf(ps[..], list)
  {
    x, y := 0.0, 0.0;
    for k := 0 to |list|
      invariant Point(x, y) == SumOf(ps[..], list[..k])
    {
      assert list[..k + 1][..k] == list[..k];
      x := x + ps[list[k]].x;
      y := y + ps[list[k]].y;
    }
    assert list[..|list|] == list;
  }

  /** One sweep in place: each free point, in ascending order, is overwritten
      with the mean of its neighbours; returns the summed squared displacement. */
  method SweepInPlace(ps: array<Point>, nb: seq<seq<nat>>, nFixed: nat) returns (change: real)
    requires ValidTable(nb, ps.Length) && FreeHaveNeighbors(nb, nFixed)
    modifies ps
    ensures Sweep(old(ps[..]), nb, nFixed) == SweepState(ps[..], change)
  {
    change := 0.0;
    var i := FirstFree(ps.Length, nFixed);
    while i < ps.Length
      invariant FirstFree(ps.Length, nFixed) <= i <= ps.Length
      invariant SweepUpTo(old(ps[..]), nb, nFixed, i) == SweepState(ps[..], change)
    {
      var x, y := NeighborSum(ps, nb[i]);
      var n := |nb[i]| as real;
      var p := ps[i];
      var q := Point(x / n, y / n);
      ps[i] := q;
      change := change + DistSq(p, q);
      i := i + 1;
    }
  }

  /** Smooths the points in place; returns the number of sweeps run and
      whether smoothing stopped because it converged. */
  method Smooth(ps: array<Point>, nb: seq<seq<nat>>, nFixed: nat, nSteps: nat, eps: real)
    returns (sweeps: nat, converged: bool)
    requires ValidTable(nb, ps.Length) && FreeHaveNeighbors(nb, nFixed)
    modifies ps
    ensures Relax(old(ps[..]), nb, nFixed, nSteps, eps) == Relaxation(ps[..], sweeps, converged)
  {
    sweeps, converged := 0, false;
    for step := 0 to nSteps
      invariant sweeps == step && !converged
      invariant Relax(old(ps[..]), nb, nFixed, nSteps, eps)
                == var r := Relax(ps[..], nb, nFixed, nSteps - step, eps);
                   Relaxation(r.points, r.sweeps + step, r.converged)
    {
      var change := SweepInPlace(ps, nb, nFixed);
      sweeps := sweeps + 1;
      if RootBelow(change, eps) {
        converged := true;
        break;
      }
    }
  }
}
