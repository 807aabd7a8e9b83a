/** Rank-2 arrays of reals, as the numpy arrays of the clustering statistics
    module: a matrix keeps its column count even when it has no rows. */
module Matrices {

  type Vector = seq<real>

  /** The sum of a sequence of reals (numpy.sum over one axis). */
  function Sum(s: seq<real>): real
  {
    if |s| == 0 then 0.0 else Sum(s[..|s| - 1]) + s[|s| - 1]
  }

  /** The smallest value of a non-empty sequence (Python's min). */
  function Minimum(s: seq<real>): (m: real)
    requires |s| > 0
    ensures m in s
    ensures forall i :: 0 <= i < |s| ==> m <= s[i]
  {
    if |s| == 1 then s[0]
    else
      var rest := Minimum(s[1..]);
      assert rest in s;
      if s[0] <= rest then s[0] else rest
  }

  /** The largest value of a non-empty sequence (ndarray.max). */
  function Maximum(s: seq<real>): (m: real)
    requires |s| > 0
    ensures m in s
    ensures forall i :: 0 <= i < |s| ==> s[i] <= m
  {
    if |s| == 1 then s[0]
    else
      var rest := Maximum(s[1..]);
      assert rest in s;
      if rest <= s[0] then s[0] else rest
  }

  /** The indices 0 .. n-1 in order (Python's list(range(n))). */
  function Range(n: nat): (r: seq<nat>)
    ensures |r| == n
    ensures forall i :: 0 <= i < n ==> r[i] == i
  {
    seq(n, i requires 0 <= i => i as nat)
  }

  /** Strictly ascending, hence also free of duplicates. */
  predicate Ascending(s: seq<nat>)
  {
    forall a, b :: 0 <= a < b < |s| ==> s[a] < s[b]
  }

  predicate Distinct<T(==)>(s: seq<T>)
  {
    forall a, b :: 0 <= a < b < |s| ==> s[a] != s[b]
  }

  datatype Matrix = Matrix(cols: nat, rows: seq<seq<real>>) {

    /** Every row has exactly `cols` entries. */
    predicate WellFormed()
    {
      forall i :: 0 <= i < |rows| ==> |rows[i]| == cols
    }

    function Height(): nat
    {
      |rows|
    }

    /** numpy's `shape`: (number of rows, number of columns). */
    function Shape(): (nat, nat)
    {
      (|rows|, cols)
    }

    /** Column j, i.e. m[:, j]. */
    function Column(j: nat): seq<real>
      requires WellFormed() && j < cols
    {
      seq(|rows|, i requires 0 <= i < |rows| => rows[i][j])
    }

    function RowSum(i: nat): real
      requires i < |rows|
    {
      Sum(rows[i])
    }

    function ColumnSum(j: nat): real
      requires WellFormed() && j < cols
    {
      Sum(Column(j))
    }
  }
}
