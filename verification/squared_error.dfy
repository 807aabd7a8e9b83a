/** `SEmatrix`: the per-point, per-cluster squared-error contributions.
    When a centroid is multi-valued (the mode statistic can return several
    values in one dimension), an odometer enumerates every combination of
    modal values, and a link rule (maximum, minimum or average) reduces the
    distances to those combinations to one. */
module SquaredError {
  import opened Outcomes
  import opened Matrices
  import opened DistanceMatrices
  import opened MixedRadix

  /** The centroids: ordinary vectors, or, per cluster and per dimension, the
      list of modal values (an object array). */
  datatype CentroidData = SingleValued(points: seq<Vector>) | MultiValued(modes: seq<seq<seq<real>>>)
  {
    function Count(): nat
    {
      match this
      case SingleValued(points) => |points|
      case MultiValued(modes) => |modes|
    }
  }

  /** The number of modal values in each dimension of one centroid. */
  function Radices(modes: seq<seq<real>>): seq<nat>
  {
    seq(|modes|, m requires 0 <= m < |modes| => |modes[m]|)
  }

  /** The candidate centroid made of one modal value per dimension. */
  function Pick(modes: seq<seq<real>>, index: seq<nat>): Vector
    requires InRange(index, Radices(modes))
  {
    seq(|modes|, m requires 0 <= m < |modes| => modes[m][index[m]])
  }

  /** The distances from a point to every combination of modal values, in
      enumeration order: position n holds the combination whose digits are
      the mixed-radix digits of n. */
  function CombinationDistances(point: Vector, modes: seq<seq<real>>, dist: Distance): seq<real>
  {
    var k := Radices(modes);
    seq(Prod(k), n requires 0 <= n < Prod(k) =>
      ValueOfDigits(n, k); dist(point, Pick(modes, Digits(n, k))))
  }

  /** One turn of the odometer: add one to digit 0, then, from the lowest
      digit up, reset each digit that has reached its radix to 0 and add one
      to the next. The top digit is never reset, so after the last
      combination it overflows. */
  method Advance(index: seq<nat>, k: seq<nat>, ghost n: nat) returns (next: seq<nat>)
    requires |k| > 0 && n < Prod(k) && index == Digits(n, k)
    ensures |next| == |k|
    ensures Value(next, k) == n + 1
    ensures n + 1 < Prod(k) ==> next == Digits(n + 1, k)
  {
    ValueOfDigits(n, k);
    ValueBump(index, k);
    next := index[0 := index[0] + 1];
    var m := 0;
    while m < |next| - 1
      invariant |next| == |k|
      invariant 0 <= m <= |next| - 1
      invariant Value(next, k) == n + 1
      invariant CarryPending(next, k, m)
    {
      if next[m] == k[m] {
        ValueCarry(next, k, m);
        next := next[m := 0][m + 1 := next[m + 1] + 1];
      }
      m := m + 1;
    }
    if n + 1 < Prod(k) {
      Settled(next, k);
      DigitsOfValue(next, k);
    }
  }

  /** The odometer over one multi-valued centroid, as the source runs it:
      read the current index vector, record the distance to the combination
      it selects, add one to digit 0 and carry every digit that reached its
      radix into the next one. A centroid with no dimensions at all has no
      digit 0 to advance and fails. */
  method ModeDistances(point: Vector, modes: seq<seq<real>>, dist: Distance) returns (r: Result<seq<real>>)
    ensures r == Failure(NoDimensions) <==> |modes| == 0
    ensures |modes| > 0 ==> r.Success?
    ensures r.Success? ==> |r.value| == Prod(Radices(modes))
    ensures r.Success? ==> forall n :: 0 <= n < |r.value| ==>
      && InRange(Digits(n, Radices(modes)), Radices(modes))
      && r.value[n] == dist(point, Pick(modes, Digits(n, Radices(modes))))
  {
    var k := Radices(modes);
    if |k| == 0 {
      return Failure(NoDimensions);
    }
    var total := Prod(k);
    var index: seq<nat> := seq(|k|, _ => 0);
    DigitsOfZero(k);
    var d: seq<real> := [];
    var n := 0;
    while n < total
      invariant n <= total && |d| == n && |index| == |k|
      invariant n < total ==> index == Digits(n, k)
      invariant forall t :: 0 <= t < n ==>
        InRange(Digits(t, k), k) && d[t] == dist(point, Pick(modes, Digits(t, k)))
    {
      ValueOfDigits(n, k);
      ProdPositive(k);
      var cent := seq(|index|, m requires 0 <= m < |index| => modes[m][index[m]]);
      d := d + [dist(point, cent)];
      index := Advance(index, k, n);
      n := n + 1;
    }
    return Success(d);
  }

  /** The odometer produces exactly the enumeration-order distance list. */
  lemma ModeDistancesInOrder(point: Vector, modes: seq<seq<real>>, dist: Distance, d: seq<real>)
    requires |d| == Prod(Radices(modes))
    requires forall n :: 0 <= n < |d| ==>
      && InRange(Digits(n, Radices(modes)), Radices(modes))
      && d[n] == dist(point, Pick(modes, Digits(n, Radices(modes))))
    ensures d == CombinationDistances(point, modes, dist)
  {
  }

  /** A link rule the source accepts: maximum, single (minimum) or average. */
  predicate ValidLink(link: string)
  {
    link == "m" || link == "s" || link == "a"
  }

  /** Reduces the combination distances by the link rule. An unknown rule is
      rejected whatever the distances; the maximum or minimum of no distances
      is an empty reduction. */
  function LinkDistance(d: seq<real>, link: string): (r: Result<real>)
    ensures !ValidLink(link) <==> r == Failure(UnsupportedLink)
    ensures ValidLink(link) && |d| == 0 ==> r == Failure(EmptyReduction)
    ensures ValidLink(link) && |d| > 0 ==> r.Success?
    ensures link == "m" && r.Success? ==> r.value in d && forall i :: 0 <= i < |d| ==> d[i] <= r.value
    ensures link == "s" && r.Success? ==> r.value in d && forall i :: 0 <= i < |d| ==> r.value <= d[i]
    ensures link == "a" && r.Success? ==> r.value == Mean(d)
  {
    if link == "m" then
      if |d| == 0 then Failure(EmptyReduction) else Success(Maximum(d))
    else if link == "s" then
      if |d| == 0 then Failure(EmptyReduction) else Success(Minimum(d))
    else if link == "a" then
      if |d| == 0 then Failure(EmptyReduction) else Success(Mean(d))
    else Failure(UnsupportedLink)
  }

  lemma {:induction false} SumBounds(d: seq<real>, lo: real, hi: real)
    requires forall i :: 0 <= i < |d| ==> lo <= d[i] <= hi
    ensures |d| as real * lo <= Sum(d) <= |d| as real * hi
  {
    if |d| > 0 {
      SumBounds(d[..|d| - 1], lo, hi);
    }
  }

  lemma DivideBounds(s: real, n: real, lo: real, hi: real)
    requires n > 0.0 && n * lo <= s <= n * hi
    ensures lo <= s / n <= hi
  {
    var q := s / n;
    assert s == n * q;
  }

  /** `numpy.mean` of a non-empty list: the value that, taken as many times
      as there are entries, makes up their sum. */
  function Mean(d: seq<real>): (m: real)
    requires |d| > 0
    ensures |d| as real * m == Sum(d)
  {
    var n := |d| as real;
    var m := Sum(d) / n;
    MeanTimesCount(Sum(d), n);
    assert n * m == Sum(d);
    m
  }

  /** The mean lies between the smallest and the largest entry. */
  lemma MeanIsBetween(d: seq<real>)
    requires |d| > 0
    ensures Minimum(d) <= Mean(d) <= Maximum(d)
  {
    MeanBounds(d, Minimum(d), Maximum(d));
  }

  /** The mean times the count gives back the sum. */
  lemma MeanTimesCount(s: real, n: real)
    requires n > 0.0
    ensures n * (s / n) == s
  {
  }

  /** Values that all lie in [lo, hi] have their average in [lo, hi]. */
  lemma MeanBounds(d: seq<real>, lo: real, hi: real)
    requires |d| > 0
    requires forall i :: 0 <= i < |d| ==> lo <= d[i] <= hi
    ensures lo <= Sum(d) / |d| as real <= hi
  {
    SumBounds(d, lo, hi);
    DivideBounds(Sum(d), |d| as real, lo, hi);
  }


  /** The membership weight times the square of the distance. */
  function Weighted(weight: real, x: real): real
  {
    weight * (x * x)
  }

  /** One entry of the matrix: the point's membership weight (levs[i][j]**p,
      given) times the squared distance to centroid j, the distance to a
      multi-valued centroid being the link of its combination distances. */
  function Contribution(point: Vector, weight: real, cdata: CentroidData, j: nat,
                        link: string, dist: Distance): Result<real>
    requires j < cdata.Count()
  {
    match cdata
    case SingleValued(points) =>
      var x := dist(point, points[j]);
      Success(Weighted(weight, x))
    case MultiValued(modes) =>
      if |modes[j]| == 0 then Failure(NoDimensions)
      else
        var x := LinkDistance(CombinationDistances(point, modes[j], dist), link);
        if x.Failure? then Failure(x.error) else Success(Weighted(weight, x.value))
  }

  /** For multi-valued centroids, any link rule other than m, s or a is
      rejected at the first centroid that has dimensions. */
  lemma UnknownLinkRejected(point: Vector, weight: real, modes: seq<seq<seq<real>>>, j: nat,
                            link: string, dist: Distance)
    requires j < |modes| && |modes[j]| > 0
    ensures Contribution(point, weight, MultiValued(modes), j, link, dist) == Failure(UnsupportedLink)
      <==> !ValidLink(link)
  {
  }

  /** Computes one entry as the source does, running the odometer. */
  method ContributionOf(point: Vector, weight: real, cdata: CentroidData, j: nat,
                        link: string, dist: Distance) returns (r: Result<real>)
    requires j < cdata.Count()
    ensures r == Contribution(point, weight, cdata, j, link, dist)
  {
    match cdata
    case SingleValued(points) =>
      var x := dist(point, points[j]);
      r := Success(Weighted(weight, x));
    case MultiValued(modes) =>
      var d := ModeDistances(point, modes[j], dist);
      if d.Failure? {
        return Failure(d.error);
      }
      ModeDistancesInOrder(point, modes[j], dist, d.value);
      var x := LinkDistance(d.value, link);
      assert x == LinkDistance(CombinationDistances(point, modes[j], dist), link);
      if x.Failure? {
        return Failure(x.error);
      }
      r := Success(Weighted(weight, x.value));
  }

  /** Whether entry (a, b) comes before entry (i, j) in row-major order. */
  predicate Before(a: nat, b: nat, i: nat, j: nat)
  {
    a < i || (a == i && b < j)
  }

  /** The entry (i, j) of the matrix for these inputs. */
  function ErrorEntry(data: seq<Vector>, levs: Matrix, cdata: CentroidData, link: string, dist: Distance,
                      power: real -> real, i: nat, j: nat): Result<real>
    requires levs.WellFormed() && i < |data| <= levs.Height() && j < levs.cols == cdata.Count()
  {
    Contribution(data[i], power(levs.rows[i][j]), cdata, j, link, dist)
  }

  /** `SEmatrix` with the centroids given: entries are computed point by
      point and cluster by cluster; the first failing entry aborts the whole
      computation with its error. A membership matrix without rows fails when
      its first row is looked up for the width of the result. */
  method SquaredErrorMatrix(data: seq<Vector>, levs: Matrix, cdata: CentroidData, link: string,
                            dist: Distance, power: real -> real) returns (r: Result<seq<seq<real>>>)
    requires levs.WellFormed() && levs.Height() >= |data| && cdata.Count() == levs.cols
    ensures levs.Height() == 0 ==> r == Failure(IndexOutOfRange)
    ensures r.Success? ==> |r.value| == |data|
    ensures r.Success? ==> forall i :: 0 <= i < |data| ==> |r.value[i]| == levs.cols
    ensures r.Success? ==> forall i, j :: 0 <= i < |data| && 0 <= j < levs.cols ==>
      ErrorEntry(data, levs, cdata, link, dist, power, i, j) == Success(r.value[i][j])
    ensures levs.Height() > 0 && r.Failure? ==>
      exists i, j :: 0 <= i < |data| && 0 <= j < levs.cols
        && ErrorEntry(data, levs, cdata, link, dist, power, i, j) == Failure(r.error)
        && forall a, b :: 0 <= a < |data| && 0 <= b < levs.cols && Before(a, b, i, j) ==>
             ErrorEntry(data, levs, cdata, link, dist, power, a, b).Success?
    ensures levs.Height() > 0 && r.Failure? ==> exists i, j ::
      0 <= i < |data| && 0 <= j < levs.cols && ErrorEntry(data, levs, cdata, link, dist, power, i, j).Failure?
    ensures cdata.MultiValued? && !ValidLink(link) && |data| > 0 && levs.cols > 0 && |cdata.modes[0]| > 0 ==>
      r == Failure(UnsupportedLink)
  {
    if levs.Height() == 0 {
      return Failure(IndexOutOfRange);
    }
    if cdata.MultiValued? && !ValidLink(link) && |data| > 0 && levs.cols > 0 && |cdata.modes[0]| > 0 {
      UnknownLinkRejected(data[0], power(levs.rows[0][0]), cdata.modes, 0, link, dist);
    }
    assert cdata.MultiValued? && !ValidLink(link) && |data| > 0 && levs.cols > 0 && |cdata.modes[0]| > 0 ==>
      ErrorEntry(data, levs, cdata, link, dist, power, 0, 0) == Failure(UnsupportedLink);
    var sse: seq<seq<real>> := [];
    var i := 0;
    while i < |data|
      invariant i <= |data| && |sse| == i
      invariant forall a :: 0 <= a < i ==> |sse[a]| == levs.cols
      invariant forall a, b :: 0 <= a < i && 0 <= b < levs.cols ==>
        ErrorEntry(data, levs, cdata, link, dist, power, a, b) == Success(sse[a][b])
    {
      var row: seq<real> := [];
      var j := 0;
      while j < levs.cols
        invariant j <= levs.cols && |row| == j
        invariant forall b :: 0 <= b < j ==>
          ErrorEntry(data, levs, cdata, link, dist, power, i, b) == Success(row[b])
      {
        var c := ContributionOf(data[i], power(levs.rows[i][j]), cdata, j, link, dist);
        if c.Failure? {
          assert ErrorEntry(data, levs, cdata, link, dist, power, i, j) == Failure(c.error);
          return Failure(c.error);
        }
        row := row + [c.value];
        j := j + 1;
      }
      sse := sse + [row];
      i := i + 1;
    }
    return Success(sse);
  }
}
