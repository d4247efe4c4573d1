# annulus_mesh: a Dafny model of the mesh post-processing

annulus_mesh builds a triangular mesh of an annulus in four steps. It seeds
fixed points on the inner and outer boundary circles. It fills the interior
with blue-noise points. It has the external `qhull` program triangulate them.
Last, it relaxes the free points by Laplace smoothing. This project models the
index-based parts of that pipeline and proves properties of them:

- `points.dfy` (module `Points`): the `Point` value, its component-wise
  addition and its squared distance. Coordinates are reals. The square-root
  test `sqrt(x) < eps` is replaced by `RootBelow`, which needs no root.
- `decimal.dfy` (`Decimal`): `usize` parsing as Rust's `from_str` does it on a
  64-bit target. Every plain decimal rendering, with or without a leading '+', is proved to
  read back as the number it renders.
- `text.dfy` (`Text`): `BufRead::lines` and `str::split_whitespace`, each
  proved to invert the matching way of writing text.
- `qhull_output.dfy` (`QhullOutput`): the reader of the triangulator's output,
  lifted out of `qhull_triangulation`. `ParseOutput` is the reference
  function. `ReadTriangulation` is the line-by-line loop, proved equal to it.
  A missing first line, the `parse().unwrap()`s at src/qhull.rs:56 and 62
  and the final `assert_eq!` each become a distinct `ParseError`. The I/O
  `unwrap`s are left out.
  The fold over the face lines, `ParseFaceLines`, takes the line parser as a
  parameter, so its lemmas hold for any parser and `ParseOutput` passes
  `ParseFace`.
- `adjacency.dfy` (`Adjacency`): the neighbour table. `BuildNeighbors` fills an
  array of lists with nested loops, then sorts and deduplicates each list. It
  is proved to produce the table that `IsNeighborTable` defines. Lemmas prove
  the table symmetric, unique, and independent of face order and of where
  each face's cycle starts.
- `smoothing.dfy` (`Smoothing`): the Gauss-Seidel Laplace sweeps. The method
  works in place on an `array<Point>` and is proved against the reference
  functions `SweepUpTo`, `Sweep` and `Relax`.
- `boundary.dfy` (`Boundary`): the boundary-seeding loop. Each ring's count
  `k` is an input, and each seeded point is kept as its (radius, index, count).
- `mesh.dfy` (`Mesh`): the stages chained. The output is parsed, indices are
  checked, the table is built and the points are smoothed.

Where the intended behaviour and the code differ, the model follows the code,
except that where the code panics or divides by zero the model returns a
distinct error:

- A computed boundary count of zero is meant to be rejected. The code loops
  over `0..k` and simply pushes no point, and `Boundary.SeedBoundary` does the
  same.
- A free point with no neighbour is meant to be reported as a degenerate
  vertex. The code divides by a zero count and gets NaN. `Smooth` therefore
  requires every free point to have a neighbour. The pipeline
  `Mesh.RelaxMesh` checks this and returns `DegenerateVertex` exactly when
  some free point is isolated.
- The code panics on bad triangulator output. The model returns a distinct
  error for each panic instead: `MissingHeader`, `BadCount`, `BadIndex` and
  `CountMismatch`.
- `neighbors[i]` and `neighbors[j]` (src/main.rs:102-103) panic on a face
  index past the points. `Mesh.RelaxMesh` returns `IndexOutOfRange` instead,
  with the points unchanged.
- `main.rs:94` uses the `io::Result` of `qhull_triangulation` as if it were
  the face list. The pipeline uses the faces of a successful parse.

## Model

| member | source | states |
|---|---|---|
| `Points.Add` | src/qhull.rs:13-15 | the component-wise sum leaves a point unchanged exactly when the other summand is the origin |
| `Points.AddComponentwise` | src/qhull.rs:13-15 | addition adds the coordinates one by one, is commutative and has (0, 0) as identity |
| `Points.AddAssociative` | src/qhull.rs:13-15 | addition is associative, so the grouping of a neighbour sum does not matter |
| `Points.DistSq` | src/qhull.rs:25-27 | the squared distance is never negative and is zero exactly when the points are equal |
| `Points.DistSqSymmetric` | src/qhull.rs:25-27 | the squared distance from p to q equals the one from q to p |
| `Points.SquareSign` | src/qhull.rs:26 | a square is non-negative and zero only for zero |
| `Points.RootBelowAgreesWithRoot` | src/qhull.rs:20-22 | for every non-negative root of x, the root-free test `RootBelow(x, eps)` holds exactly when that root is below eps, as in `dist` and `sqrt(change) < eps` |
| `Decimal.ParseUsize` | src/qhull.rs:56 | a successful `usize` parse yields a value below 2^64 from a non-empty string |
| `Decimal.DigitsValueShow` | src/qhull.rs:62 | the digits of the decimal rendering of n have value n |
| `Decimal.ParseUsizeShow` | src/qhull.rs:62 | every rendered usize, with or without a leading '+', parses back to itself |
| `Decimal.ParseUsizeRejects` | src/qhull.rs:62 | a string with a character that is not a digit (other than the leading '+' of a longer string) is refused |
| `Decimal.ParseUsizeOverflow` | src/qhull.rs:56 | every value of 2^64 or more is refused, with or without a leading '+', although its syntax is right |
| `Text.WordLength` | src/qhull.rs:62 | a word ends at the first white space or at the end of the line |
| `Text.SplitWhitespace` | src/qhull.rs:62 | every word that `split_whitespace` yields is non-empty and free of white space |
| `Text.SplitBlank` | src/qhull.rs:62 | a line splits into no words exactly when it is all white space |
| `Text.SplitWordThen` | src/qhull.rs:62 | a word followed by white space or by nothing splits off as a single word |
| `Text.SplitJoinWords` | src/qhull.rs:62 | splitting space-separated words gives the words back |
| `Text.LineLength` | src/qhull.rs:54 | a line ends at the first line feed or at the end of the text |
| `Text.Lines` | src/qhull.rs:54 | no line that `lines()` yields contains a line feed |
| `Text.LinesJoinLines` | src/qhull.rs:54 | reading back lines written one per line feed gives the lines |
| `QhullOutput.ParseWords` | src/qhull.rs:62 | the words of a line parse to one index per word, or fail with a word that is not a usize |
| `QhullOutput.ParseFace` | src/qhull.rs:61-62 | a face line gives one index per white-space separated word, or fails with a word of the line that is not a usize |
| `QhullOutput.ParseFaceLines` | src/qhull.rs:60-64 | the face lines give one face per line, or a `BadIndex` error naming one of those lines |
| `QhullOutput.ParseOutput` | src/qhull.rs:54-67 | reading fails with `MissingHeader` exactly on empty output; on success there is one face per line after the first, and the first line holds their number |
| `QhullOutput.ReadTriangulation` | src/qhull.rs:54-67 | the push loop returns exactly what the reference reader `ParseOutput` returns, error included |
| `QhullOutput.ParseWordsOk` | src/qhull.rs:62 | a face line's words parse exactly when each word is a usize |
| `QhullOutput.ParseWordsValues` | src/qhull.rs:62 | a parsed face holds the word values in word order |
| `QhullOutput.ParseWordsFirstBad` | src/qhull.rs:62 | a failed face line reports its first word that is not a usize, as the `unwrap` inside the map stops there |
| `QhullOutput.ParseFaceLinesOk` | src/qhull.rs:60-64 | for any line parser, the face lines parse exactly when each of them does |
| `QhullOutput.ParseFaceLinesValue` | src/qhull.rs:60-64 | parsed face lines give one face per line, in order: face k is the parse of line k + 1 |
| `QhullOutput.ParseFaceLinesErr` | src/qhull.rs:60-64 | for any line parser, a failure names the first face line that does not parse and the error its parse gave (for `ParseFace`, the first bad word) |
| `QhullOutput.ParseFaceLinesErrStays` | src/qhull.rs:60-64 | once a line has failed, later lines do not change the error |
| `QhullOutput.ParseOutputSucceeds` | src/qhull.rs:54-67 | reading succeeds exactly when there is a count line whose value equals the number of face lines and each face line parses; faces follow their lines in order |
| `QhullOutput.ParseOutputFails` | src/qhull.rs:56-66 | a missing count line, a bad count line, the first bad face line and a count mismatch give their own errors, checked in the order the original panics: a count mismatch only once every face line has parsed |
| `QhullOutput.BlankLineIsEmptyFace` | src/qhull.rs:60-64 | an all-white-space line is a face with no vertices and still counts as a face |
| `QhullOutput.ParseRenderFace` | src/qhull.rs:62 | a face printed as space-separated indices reads back as that face |
| `QhullOutput.ParseRenderOutput` | src/qhull.rs:54-67 | the output printed from a list of faces reads back as those faces |
| `QhullOutput.ReadPrintedOutput` | src/qhull.rs:54-67 | end to end: printed output, split into lines and read, gives back the printed faces |
| `Adjacency.Insert` | src/main.rs:108 | sorted insertion keeps the list sorted and adds exactly one copy of the element |
| `Adjacency.SortList` | src/main.rs:108 | sorting a neighbour list yields a sorted permutation of it |
| `Adjacency.SortDedup` | src/main.rs:107-110 | sort-then-dedup turns a neighbour list into a strictly increasing list of the same values |
| `Adjacency.Dedup` | src/main.rs:109 | dedup keeps the same values, leaves no two equal neighbours, and turns a sorted list strictly increasing |
| `Adjacency.RecordFace` | src/main.rs:100-105 | after one more face has been walked, every list holds j exactly when j is a neighbour through the faces so far |
| `Adjacency.BuildNeighbors` | src/main.rs:99-110 | the table has one list per point; each list is strictly increasing, holds exactly the point's neighbours, and only valid indices |
| `Adjacency.AdjacentInRange` | src/main.rs:101-104 | when every face index is below n, both ends of every neighbour pair are below n |
| `Adjacency.AdjacentMeaning` | src/main.rs:100-105 | j is a neighbour of i exactly when i and j are cyclically consecutive in some face, in either order, with the last vertex wrapping to the first |
| `Adjacency.AdjacentSymmetric` | src/main.rs:101-104 | being neighbours is symmetric |
| `Adjacency.NeighborTableSymmetric` | src/main.rs:101-104 | j is in the list of i exactly when i is in the list of j |
| `Adjacency.FaceVertexHasNeighbor` | src/main.rs:100-104 | every vertex that occurs in a face has a non-empty neighbour list |
| `Adjacency.StrictlyIncreasingUnique` | src/main.rs:107-110 | a sorted, deduplicated list is determined by its elements |
| `Adjacency.NeighborTableUnique` | src/main.rs:99-110 | the table is determined by the neighbour relation: any two tables for the same relation are equal |
| `Adjacency.AdjacentFaceOrder` | src/main.rs:100 | the neighbour relation depends only on which faces occur, not on their order or repetition |
| `Adjacency.NeighborTableFaceOrder` | src/main.rs:100-110 | reordering the faces leaves the table unchanged |
| `Adjacency.RotateStep` | src/main.rs:101 | step m of a rotated face is step (m + r) mod n of the face |
| `Adjacency.RotateEdges` | src/main.rs:101 | a face has the same consecutive pairs wherever its cycle starts |
| `Adjacency.NeighborTableRotation` | src/main.rs:100-110 | starting any face at another vertex leaves the table unchanged |
| `Adjacency.TriangleTable` | src/main.rs:99-110 | the single triangle (0, 1, 2) gives each vertex the other two as neighbours |
| `Adjacency.TriangleTableRotated` | src/main.rs:99-110 | the same triangle listed from vertex 1 or vertex 2 gives the same table |
| `Adjacency.SingleVertexFace` | src/main.rs:101 | a face of one vertex makes that vertex its own neighbour, since its successor around the cycle is itself |
| `Smoothing.SumOf` | src/main.rs:123-126 | the neighbour sum of a single neighbour is that neighbour |
| `Smoothing.Mean` | src/main.rs:127-129 | a point with a single neighbour moves onto it |
| `Smoothing.SumOfCoincident` | src/main.rs:123-126 | n neighbours at one point sum to n times that point |
| `Smoothing.MeanOfCoincident` | src/main.rs:127-129 | neighbours that all sit at one point have that point as their mean |
| `Smoothing.Sweep` | src/main.rs:120-132 | a full sweep keeps the number of points and the fixed points, and its change is never negative |
| `Smoothing.SweepUpTo` | src/main.rs:120-132 | during a sweep the length never changes, the accumulated change is never negative, and fixed points and points not yet reached keep their positions |
| `Smoothing.Moved` | src/main.rs:131 | the summed squared displacement from the old points to the new ones over a range of indices is never negative |
| `Smoothing.MovedZero` | src/main.rs:131 | that displacement is zero exactly when no point in the range moved |
| `Smoothing.MovedAgree` | src/main.rs:131 | the displacement over a range depends only on the points in that range |
| `Smoothing.MovedUpdate` | src/main.rs:128-131 | moving one more point adds its squared displacement to the total |
| `Smoothing.SweepUpToChange` | src/main.rs:120-132 | the change a sweep accumulates is the summed squared displacement of the points it has updated, each measured from where it was before the sweep |
| `Smoothing.SweepChangeZero` | src/main.rs:120-134 | a sweep reports zero change exactly when it moved no point, so the convergence test sees a change only when something moved |
| `Smoothing.SweepUpToStable` | src/main.rs:120-130 | updating later points leaves earlier ones as they were |
| `Smoothing.SweepGaussSeidel` | src/main.rs:120-131 | free point i moves to the mean of its neighbours as they are when i is reached: new positions below i, old ones from i on |
| `Smoothing.Relax` | src/main.rs:117-137 | smoothing keeps the length and the fixed points, runs at most the sweep cap, and runs the full cap unless it stopped by converging |
| `Smoothing.RelaxIsIterate` | src/main.rs:117-137 | the smoothed points are exactly as many plain sweeps as smoothing reports having run |
| `Smoothing.RelaxFailedBefore` | src/main.rs:134-136 | every sweep before the last one failed the convergence test, so smoothing stops at the first sweep that passes |
| `Smoothing.RelaxLastSweep` | src/main.rs:134-136 | smoothing reports convergence exactly when its last sweep passed the convergence test |
| `Smoothing.SweepUpToAtEquilibrium` | src/main.rs:120-132 | when every free point is already at its neighbours' mean, a partial sweep moves nothing and accumulates no change |
| `Smoothing.RelaxAtEquilibrium` | src/main.rs:117-137 | at equilibrium a sweep moves nothing, so with a positive threshold smoothing stops after one sweep with the points unchanged |
| `Smoothing.NeighborSum` | src/main.rs:121-126 | the inner loop sums the positions of the listed neighbours |
| `Smoothing.SweepInPlace` | src/main.rs:118-132 | one in-place sweep leaves the array and the change equal to the reference sweep |
| `Smoothing.Smooth` | src/main.rs:117-137 | the in-place sweep loop with its early break leaves the array, sweep count and convergence flag equal to `Relax` |
| `Boundary.SeedBoundary` | src/main.rs:71-80 | the pushed points are the rings in order, inner first, each with its k points by ascending index; n_fixed is their number |
| `Boundary.LayoutAt` | src/main.rs:71-77 | point i of ring r sits at the offset of ring r plus i, after all points of earlier rings |
| `Boundary.Ring` | src/main.rs:73-76 | one ring pushes max(k, 0) points, since `0..k` is empty for k <= 0 |
| `Boundary.Layout` | src/main.rs:71-77 | the points of the first r rings number the sum of their max(k, 0), and each has an angle index below its ring's count |
| `Boundary.DefaultRings` | src/main.rs:71-80 | rings of 4 and 22 points give n_fixed = 26, with the inner ring first |
| `Mesh.RelaxMesh` | src/main.rs:94-137 | an unreadable output, a face index past the points, and an isolated free point each give their own error exactly when they occur (checked in that order) and leave the points as they were; it succeeds exactly when none occurs, and then the points are those of `Relax` over the neighbour table of the parsed faces |
| `Adjacency.EmptyListIsolated` | src/main.rs:99-110 | the list of a point is empty exactly when no face makes the point adjacent to anything |
| `Mesh.DegenerateMeansIsolated` | src/main.rs:127-129 | a point without neighbours occurs in no face |

## Left out

- Running the external `qhull` process, writing the points to it, and reading
  its standard output (src/qhull.rs:36-52) are process I/O. The reader starts
  from the output text, or from its lines.
- The output is not decoded as UTF-8, so invalid UTF-8 (the `line.unwrap()`
  failure) is not modelled. Text is a sequence of characters.
- Command-line parsing with docopt, the `println!` messages and the gnuplot
  plot (src/main.rs:31-57, 92, 96, 139-158) are I/O and display.
- The random generator and the blue-noise sampler (src/main.rs:59-60, 83-90)
  are left out. `blue_noise` and `annulus_distribution` are not part of this
  model. The region test on `dist` is covered only through
  `Points.RootBelowAgreesWithRoot`.
- Boundary.SeedBoundary: keeps each seeded point as its radius, index and
  count, not its coordinates. Those come from `sin_cos`, and the count `k`
  comes from rounding a floating-point product, so `k` is an input. The
  saturating `as i32` cast is covered only in that `k` is any integer.
- Floating point: coordinates are reals, with no rounding, overflow or NaN.
  `dist` (a square root) becomes the root-free `RootBelow`. Dividing by an
  empty neighbour count yields NaN in the original. Here it is excluded by
  `Smooth`'s precondition and reported as `DegenerateVertex` by the pipeline.
- Adjacency.SortList: the library's stable merge sort is modelled by an
  insertion sort with the same result, a sorted permutation. Stability cannot
  be observed on integers.
- Decimal.ParseUsize: assumes a 64-bit `usize`.
- QhullOutput.ReadPrintedOutput: covers output printed with single spaces
  between indices and no trailing space. The exact layout of the external
  triangulator's printer is not part of this model.
