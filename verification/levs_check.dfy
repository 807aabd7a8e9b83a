/** `levscheck`: validation of a membership (levs) matrix, where levs[i][j]
    is the level to which data point i belongs to cluster j. */
module LevsCheck {
  import opened Matrices

  /** The verdict and the three lists of offending indices. */
  datatype Report = Report(legal: bool, notNormal: seq<nat>, empty: seq<nat>, full: seq<nat>)

  /** The indices at which `flags` holds, in ascending order. */
  function IndicesWhere(flags: seq<bool>): (r: seq<nat>)
    ensures Ascending(r)
    ensures forall i: nat :: i in r <==> i < |flags| && flags[i]
    decreases |flags|
  {
    if |flags| == 0 then []
    else
      var last := |flags| - 1;
      var earlier := IndicesWhere(flags[..last]);
      assert forall a :: 0 <= a < |earlier| ==> earlier[a] in earlier && earlier[a] < last;
      earlier + (if flags[last] then [last] else [])
  }

  /** The scan as the source writes it: skipped when no flag is set, which
      yields the same list. */
  function Offenders(flags: seq<bool>): (r: seq<nat>)
    ensures Ascending(r)
    ensures forall i: nat :: i in r <==> i < |flags| && flags[i]
  {
    if forall i :: 0 <= i < |flags| ==> !flags[i] then [] else IndicesWhere(flags)
  }

  /** Every membership level lies in [0, 1]. */
  predicate InUnitInterval(levs: Matrix)
    requires levs.WellFormed()
  {
    forall i, j :: 0 <= i < levs.Height() && 0 <= j < levs.cols ==>
      0.0 <= levs.rows[i][j] <= 1.0
  }

  /** A row is normalised when its sum rounds to 1 at the chosen precision;
      `roundsToOne` stands for that rounding test. */
  predicate RowNormalised(levs: Matrix, roundsToOne: real -> bool, i: nat)
    requires i < levs.Height()
  {
    roundsToOne(levs.RowSum(i))
  }

  /** A cluster is empty when its column sums to at most 0. */
  predicate ColumnEmpty(levs: Matrix, j: nat)
    requires levs.WellFormed() && j < levs.cols
  {
    levs.ColumnSum(j) <= 0.0
  }

  /** A cluster is full when its column sums to at least the number of points. */
  predicate ColumnFull(levs: Matrix, j: nat)
    requires levs.WellFormed() && j < levs.cols
  {
    levs.ColumnSum(j) >= levs.Height() as real
  }

  /** `levscheck`: the three lists name exactly the offending rows and
      columns, ascending; the verdict is the range test plus "no offenders". */
  function Check(levs: Matrix, roundsToOne: real -> bool): (r: Report)
    requires levs.WellFormed()
    ensures Ascending(r.notNormal) && Ascending(r.empty) && Ascending(r.full)
    ensures forall i: nat :: i in r.notNormal <==>
      i < levs.Height() && !RowNormalised(levs, roundsToOne, i)
    ensures forall j: nat :: j in r.empty <==> j < levs.cols && ColumnEmpty(levs, j)
    ensures forall j: nat :: j in r.full <==> j < levs.cols && ColumnFull(levs, j)
    ensures r.legal <==> InUnitInterval(levs) && r.notNormal == [] && r.empty == [] && r.full == []
  {
    var rows := levs.Height();
    var test1 := seq(rows, i requires 0 <= i < rows => roundsToOne(levs.RowSum(i)));
    var test2 := seq(levs.cols, j requires 0 <= j < levs.cols => levs.ColumnSum(j));
    var test3 := InUnitInterval(levs);
    var normal := Offenders(seq(|test1|, i requires 0 <= i < |test1| => !test1[i]));
    var empty := Offenders(seq(|test2|, j requires 0 <= j < |test2| => test2[j] <= 0.0));
    var full := Offenders(seq(|test2|, j requires 0 <= j < |test2| => test2[j] >= |test1| as real));
    Report(test3 && |normal| == 0 && |empty| == 0 && |full| == 0, normal, empty, full)
  }

  /** The verdict in the documented terms: a matrix is legal exactly when every
      level lies in [0, 1], every point is normalised and every cluster is
      neither empty nor full. */
  lemma LegalIffWellBehaved(levs: Matrix, roundsToOne: real -> bool)
    requires levs.WellFormed()
    ensures Check(levs, roundsToOne).legal <==>
      && InUnitInterval(levs)
      && (forall i :: 0 <= i < levs.Height() ==> RowNormalised(levs, roundsToOne, i))
      && (forall j :: 0 <= j < levs.cols ==> 0.0 < levs.ColumnSum(j) < levs.Height() as real)
  {
    var r := Check(levs, roundsToOne);
    if r.legal {
      forall i | 0 <= i < levs.Height()
        ensures RowNormalised(levs, roundsToOne, i)
      {
        assert i as nat !in r.notNormal;
      }
      forall j | 0 <= j < levs.cols
        ensures 0.0 < levs.ColumnSum(j) < levs.Height() as real
      {
        assert j as nat !in r.empty;
        assert j as nat !in r.full;
      }
    } else if InUnitInterval(levs) {
      if r.notNormal != [] {
        var i := r.notNormal[0];
        assert i in r.notNormal;
      } else if r.empty != [] {
        var j := r.empty[0];
        assert j in r.empty;
      } else {
        var j := r.full[0];
        assert j in r.full;
      }
    }
  }
}
