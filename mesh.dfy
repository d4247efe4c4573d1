/** The mesh pipeline after sampling (main.rs): read the triangulation,
    build the neighbour table over all points, then smooth the free points.
    Where the original panics (bad triangulator output, a vertex index past
    the point list) or would divide by zero (a free point with no
    neighbour), this model returns a distinct error instead. */
module Mesh {
  import opened Results
  import opened Points
  import opened QhullOutput
  import opened Adjacency
  import opened Smoothing

  datatype MeshError =
    | OracleFailure(cause: ParseError)  // the triangulator's output is unreadable
    | IndexOutOfRange                   // a face names a point that does not exist
    | DegenerateVertex                  // a free point has no neighbour

  /** What the smoothing stage reports on success. */
  datatype Smoothed = Smoothed(faces: seq<Face>, table: seq<seq<nat>>, sweeps: nat, converged: bool)

  method RelaxMesh(ps: array<Point>, nFixed: nat, output: seq<string>, nSteps: nat, eps: real)
    returns (r: Result<Smoothed, MeshError>)
    modifies ps
    ensures r.Err? ==> ps[..] == old(ps[..])
    ensures r.Err? && r.error.OracleFailure? <==> ParseOutput(output).Err?
    ensures r.Err? && r.error.OracleFailure? ==> r.error.cause == ParseOutput(output).error
    ensures r.Err? && r.error.IndexOutOfRange? <==>
              ParseOutput(output).Ok? && !IndicesBelow(ParseOutput(output).value, ps.Length)
    ensures r.Err? && r.error.DegenerateVertex? <==>
              && ParseOutput(output).Ok? && IndicesBelow(ParseOutput(output).value, ps.Length)
              && exists v :: nFixed <= v < ps.Length && Isolated(ParseOutput(output).value, v)
    ensures r.Ok? <==>
              && ParseOutput(output).Ok? && IndicesBelow(ParseOutput(output).value, ps.Length)
              && forall v :: nFixed <= v < ps.Length ==> !Isolated(ParseOutput(output).value, v)
    ensures r.Ok? ==>
              && r.value.faces == ParseOutput(output).value
              && IsNeighborTable(r.value.table, ps.Length, r.value.faces)
              && ValidTable(r.value.table, ps.Length)
              && FreeHaveNeighbors(r.value.table, nFixed)
              && Relax(old(ps[..]), r.value.table, nFixed, nSteps, eps)
                 == Relaxation(ps[..], r.value.sweeps, r.value.converged)
  {
    var parsed := ReadTriangulation(output);
    if parsed.Err? {
      return Err(OracleFailure(parsed.error));
    }
    var faces := parsed.value;
    if !IndicesBelow(faces, ps.Length) {
      return Err(IndexOutOfRange);
    }
    var table := BuildNeighbors(ps.Length, faces);
    forall v: nat | v < ps.Length ensures table[v] == [] <==> Isolated(faces, v) {
      EmptyListIsolated(table, ps.Length, faces, v);
    }
    if !FreeHaveNeighbors(table, nFixed) {
      return Err(DegenerateVertex);
    }
    var sweeps, converged := Smooth(ps, table, nFixed, nSteps, eps);
    return Ok(Smoothed(faces, table, sweeps, converged));
  }

  /** A free point with no neighbour occurs in no face: the pipeline reports
      DegenerateVertex only for points the triangulation left out. */
  lemma DegenerateMeansIsolated(table: seq<seq<nat>>, n: nat, faces: seq<Face>, v: nat)
    requires IsNeighborTable(table, n, faces) && IndicesBelow(faces, n)
    requires v < n && table[v] == []
    ensures forall t, m :: 0 <= t < |faces| && 0 <= m < |faces[t]| ==> faces[t][m] != v
  {
    forall t, m | 0 <= t < |faces| && 0 <= m < |faces[t]| ensures faces[t][m] != v {
      if faces[t][m] == v {
        FaceVertexHasNeighbor(table, n, faces, t, m);
      }
    }
  }
}
