/** The structural part of the fuzzy silhouette coefficient: recovering one
    point's distance row from whichever distance source is given, and the
    temporary zeroing of that point's membership row, which is put back
    before returning. The coefficient arithmetic itself is a parameter. */
module Silhouette {
  import opened Outcomes
  import opened Matrices
  import opened DistanceMatrices

  /** Where the distances from the point come from. */
  datatype DistanceSource =
    | FromData(data: seq<Vector>)      // no distance matrix: compute from the data
    | Ragged(lower: seq<seq<real>>)    // a list: the lower triangle of `distancematrix`
    | Dense(full: seq<seq<real>>)      // an array: the square matrix of `fulldistancematrix`

  /** Rebuilds the distance row of `point` from the ragged lower triangle:
      zero at the point itself, the entry of the later and the earlier point
      elsewhere. An out-of-range point fails as soon as row 0 is looked up. */
  function RaggedRow(dm: seq<seq<real>>, point: nat): (d: Result<seq<real>>)
    requires IsTriangular(dm)
    ensures d.Failure? <==> 0 < |dm| <= point
    ensures d.Failure? ==> d.error == IndexOutOfRange
    ensures d.Success? ==> |d.value| == |dm|
    ensures d.Success? && point < |dm| ==> d.value[point] == 0.0
    ensures d.Success? ==> forall i :: 0 <= i < |dm| && i != point ==>
      d.value[i] == dm[Max(i, point)][Min(i, point)]
  {
    if 0 < |dm| <= point then Failure(IndexOutOfRange)
    else Success(seq(|dm|, i requires 0 <= i < |dm| =>
      if i == point then 0.0 else dm[Max(i, point)][Min(i, point)]))
  }

  /** The distances from `point` to every point, by the three routes. */
  function PointDistances(source: DistanceSource, point: nat, dist: Distance): (d: Result<seq<real>>)
    requires source.Ragged? ==> IsTriangular(source.lower)
    ensures d.Failure? ==> d.error == IndexOutOfRange
    ensures source.FromData? ==> (d.Success? <==> |source.data| == 0 || point < |source.data|)
    ensures source.FromData? && d.Success? ==> |d.value| == |source.data|
    ensures source.FromData? && d.Success? ==> forall i :: 0 <= i < |d.value| ==>
      d.value[i] == dist(source.data[point], source.data[i])
    ensures source.Ragged? ==> d == RaggedRow(source.lower, point)
    ensures source.Dense? ==> (d.Success? <==> point < |source.full|)
    ensures source.Dense? && d.Success? ==> d.value == source.full[point]
  {
    match source
    case FromData(data) =>
      if 0 < |data| <= point then Failure(IndexOutOfRange)
      else Success(seq(|data|, i requires 0 <= i < |data| => dist(data[point], data[i])))
    case Ragged(lower) => RaggedRow(lower, point)
    case Dense(full) =>
      if point < |full| then Success(full[point]) else Failure(IndexOutOfRange)
  }

  /** The ragged lookup reproduces row `point` of the full matrix. */
  lemma RaggedRowIsFullRow(dm: seq<seq<real>>, fm: seq<seq<real>>, data: seq<Vector>,
                           dist: Distance, point: nat)
    requires IsLowerTriangle(dm, data, dist)
    requires IsFullMatrix(fm, data, dist)
    requires point < |data|
    ensures RaggedRow(dm, point) == Success(fm[point])
  {
    FullAgreesWithLower(dm, fm, data, dist);
    var d := RaggedRow(dm, point).value;
    assert |d| == |fm[point]|;
    forall i | 0 <= i < |d|
      ensures d[i] == fm[point][i]
    {
    }
    assert d == fm[point];
  }

  /** Computing the row from the data gives the same row as the matrices
      whenever the distance is symmetric and zero from a point to itself. */
  lemma DataRowIsFullRow(data: seq<Vector>, fm: seq<seq<real>>, dist: Distance, point: nat)
    requires IsFullMatrix(fm, data, dist)
    requires point < |data|
    requires forall x, y :: dist(x, y) == dist(y, x)
    requires forall x :: dist(x, x) == 0.0
    ensures PointDistances(FromData(data), point, dist) == Success(fm[point])
  {
    var d := PointDistances(FromData(data), point, dist).value;
    forall i | 0 <= i < |data|
      ensures d[i] == fm[point][i]
    {
      if i < point {
        assert fm[point][i] == dist(data[point], data[i]);
      } else if point < i {
        assert fm[point][i] == fm[i][point] == dist(data[i], data[point]);
      }
    }
    assert d == fm[point];
  }

  /** `levs[point] = 0`: the point's membership row becomes all zeros. */
  function MaskRow(levs: Matrix, point: nat): (masked: Matrix)
    requires levs.WellFormed() && point < levs.Height()
    ensures masked.WellFormed()
    ensures masked.cols == levs.cols && masked.Height() == levs.Height()
    ensures forall j :: 0 <= j < masked.cols ==> masked.rows[point][j] == 0.0
    ensures forall i :: 0 <= i < masked.Height() && i != point ==> masked.rows[i] == levs.rows[i]
  {
    levs.(rows := levs.rows[point := seq(levs.cols, _ => 0.0)])
  }

  /** `levs[point] = lev`: the saved row is written back. */
  function RestoreRow(masked: Matrix, point: nat, lev: seq<real>): (restored: Matrix)
    requires point < masked.Height()
    ensures restored.cols == masked.cols && restored.Height() == masked.Height()
    ensures restored.rows[point] == lev
    ensures forall i :: 0 <= i < restored.Height() && i != point ==> restored.rows[i] == masked.rows[i]
  {
    masked.(rows := masked.rows[point := lev])
  }

  /** Zeroing a row and writing its saved copy back restores the matrix. */
  lemma MaskThenRestore(levs: Matrix, point: nat)
    requires levs.WellFormed() && point < levs.Height()
    ensures RestoreRow(MaskRow(levs, point), point, levs.rows[point]) == levs
  {
    var r := RestoreRow(MaskRow(levs, point), point, levs.rows[point]);
    assert r.rows == levs.rows;
  }

  /** The silhouette arithmetic, left abstract: from the point's distance
      row, the membership matrix with the point's row zeroed and the point's
      own memberships, one coefficient per cluster, or the error numpy raises
      (a distance row that does not broadcast against the matrix, say). */
  type Coefficients = (seq<real>, Matrix, seq<real>) -> Result<seq<real>>

  /** The coefficients, or the error, together with the membership matrix as
      the caller sees it after the call. */
  datatype Run = Run(sil: Result<seq<real>>, levsAfter: Matrix)

  /** `silhouette`: a failed distance lookup or an out-of-range point fails
      before `levs` is touched; otherwise the arithmetic sees the matrix with
      the point's row zeroed. When it succeeds the caller gets the matrix back
      exactly as it was; when it raises, nothing writes the row back, so the
      caller is left with that row zeroed. */
  function Silhouette(point: nat, levs: Matrix, source: DistanceSource, dist: Distance,
                      coefficients: Coefficients): (run: Run)
    requires levs.WellFormed()
    requires source.Ragged? ==> IsTriangular(source.lower)
    ensures run.sil.Success? ==> run.levsAfter == levs
    ensures run.levsAfter == levs || (point < levs.Height() && run.levsAfter == MaskRow(levs, point))
    ensures PointDistances(source, point, dist).Failure? ==>
      run == Run(Failure(PointDistances(source, point, dist).error), levs)
    ensures PointDistances(source, point, dist).Success? && point >= levs.Height() ==>
      run == Run(Failure(IndexOutOfRange), levs)
    ensures PointDistances(source, point, dist).Success? && point < levs.Height() ==>
      var c := coefficients(PointDistances(source, point, dist).value, MaskRow(levs, point), levs.rows[point]);
      run.sil == c && (c.Failure? ==> run.levsAfter == MaskRow(levs, point))
  {
    match PointDistances(source, point, dist)
    case Failure(e) => Run(Failure(e), levs)
    case Success(d) =>
      if point >= levs.Height() then Run(Failure(IndexOutOfRange), levs)
      else
        var lev := levs.rows[point];
        var masked := MaskRow(levs, point);
        match coefficients(d, masked, lev)
        case Failure(e) => Run(Failure(e), masked)
        case Success(sil) =>
          MaskThenRestore(levs, point);
          Run(Success(sil), RestoreRow(masked, point, lev))
  }

  /** Only row `point` can change: every other row of the caller's matrix is
      the same after the call, whether it succeeded or not. */
  lemma OtherRowsUntouched(point: nat, levs: Matrix, source: DistanceSource, dist: Distance,
                           coefficients: Coefficients)
    requires levs.WellFormed()
    requires source.Ragged? ==> IsTriangular(source.lower)
    ensures var after := Silhouette(point, levs, source, dist, coefficients).levsAfter;
      after.cols == levs.cols && after.Height() == levs.Height() &&
      forall i :: 0 <= i < levs.Height() && i != point ==> after.rows[i] == levs.rows[i]
  {
  }
}
