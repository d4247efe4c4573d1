/** Seeding the fixed boundary points (main.rs): for each boundary radius,
    inner first, k points are appended at angles 2*pi*i/k, i = 0 .. k-1; the
    number of points appended is n_fixed. The count k is an input (its
    computation rounds a floating-point product) and each point is kept
    symbolically as its radius, index and count, since its coordinates come
    from sin and cos. */
module Boundary {

  /** The point at angle 2*pi*index/count on the circle of the given radius. */
  datatype BoundaryPoint = BoundaryPoint(radius: real, index: nat, count: nat)

  /** `0..k` is empty for k <= 0, so a ring contributes max(k, 0) points. */
  function RingSize(k: int): nat {
    if k > 0 then k else 0
  }

  /** The points of one ring, in the order they are pushed. */
  function Ring(radius: real, k: int): (ring: seq<BoundaryPoint>)
    ensures |ring| == RingSize(k)
  {
    seq(RingSize(k), i requires 0 <= i < RingSize(k) => BoundaryPoint(radius, i, k as nat))
  }

  /** The points of the first r rings, inner ring first: as many as those
      rings hold, each at an angle index below its ring's count. */
  function Layout(radii: seq<real>, counts: seq<int>, r: nat): (pts: seq<BoundaryPoint>)
    requires |radii| == |counts| && r <= |counts|
    ensures |pts| == Offset(counts, r)
    ensures forall k :: 0 <= k < |pts| ==> pts[k].index < pts[k].count
  {
    if r == 0 then [] else Layout(radii, counts, r - 1) + Ring(radii[r - 1], counts[r - 1])
  }

  /** Number of points on the first r rings. */
  function Offset(counts: seq<int>, r: nat): nat
    requires r <= |counts|
  {
    if r == 0 then 0 else Offset(counts, r - 1) + RingSize(counts[r - 1])
  }

  /** Appends the boundary rings point by point; n_fixed is the final length. */
  method SeedBoundary(radii: seq<real>, counts: seq<int>) returns (ps: seq<BoundaryPoint>, nFixed: nat)
    requires |radii| == |counts|
    ensures ps == Layout(radii, counts, |counts|)
    ensures nFixed == |ps|
  {
    ps := [];
    for r := 0 to |counts|
      invariant ps == Layout(radii, counts, r)
    {
      var k := counts[r];
      var i := 0;
      while i < k
        invariant 0 <= i <= RingSize(k)
        invariant ps == Layout(radii, counts, r) + Ring(radii[r], k)[..i]
      {
        ps := ps + [BoundaryPoint(radii[r], i, k as nat)];
        i := i + 1;
      }
      assert Ring(radii[r], k)[..i] == Ring(radii[r], k);
    }
    nFixed := |ps|;
  }

  /** Point i of ring r sits after all points of the rings before it. */
  lemma {:induction false} LayoutAt(radii: seq<real>, counts: seq<int>, n: nat, r: nat, i: nat)
    requires |radii| == |counts| && r < n <= |counts| && i < RingSize(counts[r])
    ensures Offset(counts, r) + i < Offset(counts, n)
    ensures Layout(radii, counts, n)[Offset(counts, r) + i] == BoundaryPoint(radii[r], i, counts[r] as nat)
  {
    if r < n - 1 {
      LayoutAt(radii, counts, n - 1, r, i);
    }
  }

  /** The two rings of the default configuration: 4 inner and 22 outer points
      give n_fixed = 26, with the inner ring first. */
  lemma DefaultRings(r1: real)
    ensures Offset([4, 22], 2) == 26
    ensures Layout([r1, 1.0], [4, 22], 2)[3] == BoundaryPoint(r1, 3, 4)
    ensures Layout([r1, 1.0], [4, 22], 2)[4] == BoundaryPoint(1.0, 0, 22)
  {
    LayoutAt([r1, 1.0], [4, 22], 2, 0, 3);
    LayoutAt([r1, 1.0], [4, 22], 2, 1, 0);
  }
}
