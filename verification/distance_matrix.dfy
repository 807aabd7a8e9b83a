/** The two distance-matrix builders: the ragged lower triangle
    (`distancematrix`) and the full square matrix (`fulldistancematrix`).
    The distance between two data points is a parameter: the model assumes
    nothing about it, not even symmetry. */
module DistanceMatrices {
  import opened Matrices

  /** A distance function with its dimension weights and kind already bound. */
  type Distance = (Vector, Vector) -> real

  function Max(a: nat, b: nat): nat { if a < b then b else a }
  function Min(a: nat, b: nat): nat { if a < b then a else b }

  /** Every row i of dm has exactly i entries (row 0 is empty). */
  predicate IsTriangular(dm: seq<seq<real>>)
  {
    forall i :: 0 <= i < |dm| ==> |dm[i]| == i
  }

  /** dm is the lower triangle of the distance matrix of data, main diagonal
      excluded: dm[i][j] is the distance from data[i] to data[j], for j < i. */
  predicate IsLowerTriangle(dm: seq<seq<real>>, data: seq<Vector>, dist: Distance)
  {
    && |dm| == |data|
    && IsTriangular(dm)
    && forall i, j :: 0 <= j < i < |dm| ==> dm[i][j] == dist(data[i], data[j])
  }

  /** fm is the n-by-n distance matrix of data: zero diagonal, entries below the
      diagonal computed as dist(data[i], data[j]) with j < i, mirrored above it. */
  predicate IsFullMatrix(fm: seq<seq<real>>, data: seq<Vector>, dist: Distance)
  {
    && |fm| == |data|
    && (forall i :: 0 <= i < |fm| ==> |fm[i]| == |data|)
    && (forall i :: 0 <= i < |fm| ==> fm[i][i] == 0.0)
    && (forall i, j :: 0 <= j < i < |fm| ==> fm[i][j] == dist(data[i], data[j]))
    && (forall i, j :: 0 <= i < |fm| && 0 <= j < |fm| ==> fm[i][j] == fm[j][i])
  }

  /** The entry at (a, b) of the full matrix: the lower-triangle distance
      between the later and the earlier of the two points. */
  function Entry(data: seq<Vector>, dist: Distance, a: nat, b: nat): real
    requires a < |data| && b < |data|
  {
    if a == b then 0.0 else dist(data[Max(a, b)], data[Min(a, b)])
  }

  /** Reference definition of the full distance matrix. */
  function FullMatrixOf(data: seq<Vector>, dist: Distance): (fm: seq<seq<real>>)
    ensures IsFullMatrix(fm, data, dist)
  {
    seq(|data|, a requires 0 <= a < |data| =>
      seq(|data|, b requires 0 <= b < |data| => Entry(data, dist, a, b)))
  }

  /** `distancematrix`: row i lists the distances from data[i] to every
      earlier point, in order. */
  method DistanceMatrix(data: seq<Vector>, dist: Distance) returns (dm: seq<seq<real>>)
    ensures |dm| == |data|
    ensures forall i :: 0 <= i < |dm| ==> |dm[i]| == i
    ensures forall i, j :: 0 <= j < i < |dm| ==> dm[i][j] == dist(data[i], data[j])
  {
    dm := [];
    var i := 0;
    while i < |data|
      invariant i <= |data| && |dm| == i
      invariant forall a :: 0 <= a < i ==> |dm[a]| == a
      invariant forall a, b :: 0 <= b < a < i ==> dm[a][b] == dist(data[a], data[b])
    {
      var row := [];
      var j := 0;
      while j < i
        invariant j <= i && |row| == j
        invariant forall b :: 0 <= b < j ==> row[b] == dist(data[i], data[b])
      {
        row := row + [dist(data[i], data[j])];
        j := j + 1;
      }
      dm := dm + [row];
      i := i + 1;
    }
  }

  /** Whether the pair (a, b) has been written once the outer loop is at row i
      and the inner loop at column j: the later point of the pair is a row
      already finished, or it is row i and the earlier one is below column j. */
  predicate Written(a: nat, b: nat, i: nat, j: nat)
  {
    Min(a, b) < Max(a, b) && (Max(a, b) < i || (Max(a, b) == i && Min(a, b) < j))
  }

  /** `fulldistancematrix`: starts from a zero matrix and, for every pair
      j < i, writes the distance from data[i] to data[j] into both (i, j)
      and (j, i). */
  method FullDistanceMatrix(data: seq<Vector>, dist: Distance) returns (fm: seq<seq<real>>)
    ensures |fm| == |data|
    ensures forall i :: 0 <= i < |fm| ==> |fm[i]| == |data|
    ensures forall i :: 0 <= i < |fm| ==> fm[i][i] == 0.0
    ensures forall i, j :: 0 <= j < i < |fm| ==> fm[i][j] == dist(data[i], data[j])
    ensures forall i, j :: 0 <= i < |fm| && 0 <= j < |fm| ==> fm[i][j] == fm[j][i]
  {
    var n := |data|;
    fm := seq(n, _ => seq(n, _ => 0.0));
    var i := 0;
    while i < n
      invariant i <= n && |fm| == n
      invariant forall a :: 0 <= a < n ==> |fm[a]| == n
      invariant forall a, b :: 0 <= a < n && 0 <= b < n ==>
        fm[a][b] == (if Written(a, b, i, 0) then Entry(data, dist, a, b) else 0.0)
    {
      var j := 0;
      while j < i
        invariant j <= i && |fm| == n
        invariant forall a :: 0 <= a < n ==> |fm[a]| == n
        invariant forall a, b :: 0 <= a < n && 0 <= b < n ==>
          fm[a][b] == (if Written(a, b, i, j) then Entry(data, dist, a, b) else 0.0)
      {
        var v := dist(data[i], data[j]);
        fm := fm[j := fm[j][i := v]];
        fm := fm[i := fm[i][j := v]];
        j := j + 1;
      }
      i := i + 1;
    }
  }

  /** There is only one full distance matrix for given data and distance, so
      the loop version and the reference definition agree. */
  lemma FullMatrixUnique(fm: seq<seq<real>>, data: seq<Vector>, dist: Distance)
    requires IsFullMatrix(fm, data, dist)
    ensures fm == FullMatrixOf(data, dist)
  {
    var ref := FullMatrixOf(data, dist);
    forall a | 0 <= a < |fm|
      ensures fm[a] == ref[a]
    {
      forall b | 0 <= b < |fm|
        ensures fm[a][b] == ref[a][b]
      {
        if b < a {
        } else if a < b {
          assert fm[a][b] == fm[b][a];
        }
      }
    }
  }

  /** The two forms agree: off the diagonal, the full matrix holds the
      lower-triangle entry of the later and the earlier point. */
  lemma FullAgreesWithLower(dm: seq<seq<real>>, fm: seq<seq<real>>, data: seq<Vector>, dist: Distance)
    requires IsLowerTriangle(dm, data, dist)
    requires IsFullMatrix(fm, data, dist)
    ensures |dm| == |fm|
    ensures forall i, j :: 0 <= i < |fm| && 0 <= j < |fm| && i != j ==>
      fm[i][j] == dm[Max(i, j)][Min(i, j)]
  {
    forall i, j | 0 <= i < |fm| && 0 <= j < |fm| && i != j
      ensures fm[i][j] == dm[Max(i, j)][Min(i, j)]
    {
      if i < j {
        assert fm[i][j] == fm[j][i] == dist(data[j], data[i]) == dm[j][i];
      } else {
        assert fm[i][j] == dist(data[i], data[j]) == dm[i][j];
      }
    }
  }
}
