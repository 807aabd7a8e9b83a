/** `singleclustercentroid`: choosing how one cluster's centroid is formed,
    and, for the medoid methods, which data point is the medoid. The
    weighted statistics themselves are parameters. */
module Centroids {
  import opened Outcomes
  import opened Matrices
  import opened DistanceMatrices

  /** The weighted statistics of the support module, one per method letter. */
  datatype Statistic = Mean | Median | AbsMean | GeoMean | HarMean | QuadMean | Mode

  /** A parsed method string: a statistic, or a medoid under a distance kind
      (the text after the leading 'o'). */
  datatype CentroidMethod = ByStatistic(statistic: Statistic) | Medoid(distanceKind: string)

  /** The method letter of each statistic. */
  function StatisticCode(s: Statistic): string
  {
    match s
    case Mean => "a"
    case Median => "m"
    case AbsMean => "s"
    case GeoMean => "g"
    case HarMean => "h"
    case QuadMean => "q"
    case Mode => "d"
  }

  /** The method string naming m. */
  function MethodCode(m: CentroidMethod): string
  {
    match m
    case ByStatistic(s) => StatisticCode(s)
    case Medoid(kind) => "o" + kind
  }

  /** Reads a method string: one of the seven statistic letters exactly, or
      anything starting with 'o'. The empty string fails when its first
      character is looked up; anything else is an unsupported method. */
  function ParseMethod(code: string): (r: Result<CentroidMethod>)
    ensures r.Success? <==>
      code in {"a", "m", "s", "g", "h", "q", "d"} || (|code| > 0 && code[0] == 'o')
    ensures r == Failure(IndexOutOfRange) <==> code == ""
    ensures r.Failure? && code != "" ==> r.error == UnsupportedMethod
    ensures r.Success? ==> MethodCode(r.value) == code
  {
    if code == "a" then Success(ByStatistic(Mean))
    else if code == "m" then Success(ByStatistic(Median))
    else if code == "s" then Success(ByStatistic(AbsMean))
    else if code == "g" then Success(ByStatistic(GeoMean))
    else if code == "h" then Success(ByStatistic(HarMean))
    else if code == "q" then Success(ByStatistic(QuadMean))
    else if code == "d" then Success(ByStatistic(Mode))
    else if |code| == 0 then Failure(IndexOutOfRange)
    else if code[0] == 'o' then Success(Medoid(code[1..]))
    else Failure(UnsupportedMethod)
  }

  /** Every method is recognised from its own method string. */
  lemma ParseMethodCode(m: CentroidMethod)
    ensures ParseMethod(MethodCode(m)) == Success(m)
  {
    match m
    case ByStatistic(s) =>
    case Medoid(kind) =>
      assert MethodCode(m)[0] == 'o' && MethodCode(m)[1..] == kind;
  }

  /** The first position holding x (Python's list.index). */
  function IndexOf(s: seq<real>, x: real): (i: nat)
    requires x in s
    ensures i < |s| && s[i] == x
    ensures forall j :: 0 <= j < i ==> s[j] != x
  {
    if s[0] == x then 0
    else
      assert x in s[1..] by { var k :| 0 <= k < |s| && s[k] == x; assert s[1..][k - 1] == x; }
      1 + IndexOf(s[1..], x)
  }

  /** i is the first index at which s attains its minimum. */
  predicate IsFirstMinimum(s: seq<real>, i: nat)
  {
    && i < |s|
    && (forall j :: 0 <= j < |s| ==> s[i] <= s[j])
    && (forall j :: 0 <= j < i ==> s[j] > s[i])
  }

  /** `d.index(min(d))` finds the first minimising index, and only one index
      is first. */
  lemma IndexOfMinimumIsFirstMinimum(s: seq<real>)
    requires |s| > 0
    ensures IsFirstMinimum(s, IndexOf(s, Minimum(s)))
    ensures forall i: nat :: IsFirstMinimum(s, i) ==> i == IndexOf(s, Minimum(s))
  {
    var k := IndexOf(s, Minimum(s));
    forall i: nat | IsFirstMinimum(s, i)
      ensures i == k
    {
    }
  }

  /** The medoid: the data point at the first index whose score (its weighted
      mean distance to the cluster) is smallest. No scores at all is an empty
      min(); a score index beyond the data is an index error. */
  function MedoidOf(data: seq<Vector>, scores: seq<real>): (r: Result<Vector>)
    ensures r == Failure(EmptyReduction) <==> |scores| == 0
    ensures forall i: nat {:trigger IsFirstMinimum(scores, i)} :: IsFirstMinimum(scores, i) ==>
      r == (if i < |data| then Success(data[i]) else Failure(IndexOutOfRange))
  {
    if |scores| == 0 then Failure(EmptyReduction)
    else
      IndexOfMinimumIsFirstMinimum(scores);
      var i := IndexOf(scores, Minimum(scores));
      if i < |data| then Success(data[i]) else Failure(IndexOutOfRange)
  }

  /** The collaborators the centroid computation calls, with the weights
      `lev**p` already applied. */
  datatype Numerics = Numerics(
    statistic: (Statistic, seq<Vector>, seq<real>) -> Vector,    // the weighted statistic along axis 0
    columnMeans: (seq<seq<real>>, seq<real>) -> seq<real>,       // weighted mean of each matrix column
    distance: string -> Result<Distance>)                        // the distance a kind names, or what naming it raises

  /** The distance matrix a medoid method scores on: the one given, or else
      the full matrix under the method's distance kind. A kind the distance
      module cannot use fails with whatever that module raises for it, but
      only once a distance is computed: with fewer than two points the kind is
      never looked at and the matrix is all zeros. */
  function MedoidMatrix(data: seq<Vector>, kind: string, num: Numerics,
                        given: Option<seq<seq<real>>>): (r: Result<seq<seq<real>>>)
    ensures given.Some? ==> r == Success(given.value)
    ensures given.None? && num.distance(kind).Success? ==>
      r.Success? && IsFullMatrix(r.value, data, num.distance(kind).value)
    ensures given.None? && num.distance(kind).Failure? ==>
      if |data| < 2 then r == Success(seq(|data|, _ => seq(|data|, _ => 0.0)))
      else r == Failure(num.distance(kind).error)
  {
    if given.Some? then Success(given.value)
    else match num.distance(kind)
      case Success(f) => Success(FullMatrixOf(data, f))
      case Failure(e) =>
        if |data| < 2 then Success(seq(|data|, _ => seq(|data|, _ => 0.0)))
        else Failure(e)
  }

  /** `singleclustercentroid`: an unknown method is rejected; a statistic
      method applies that statistic; a medoid method scores every point by
      its weighted mean distance on its distance matrix, and returns the first
      best-scoring point. */
  function SingleClusterCentroid(data: seq<Vector>, lev: seq<real>, code: string,
                                 num: Numerics, given: Option<seq<seq<real>>>): (r: Result<Vector>)
    ensures ParseMethod(code).Failure? ==> r == Failure(ParseMethod(code).error)
    ensures forall s :: ParseMethod(code) == Success(ByStatistic(s)) ==>
      r == Success(num.statistic(s, data, lev))
    ensures forall kind :: ParseMethod(code) == Success(Medoid(kind)) ==>
      var d := MedoidMatrix(data, kind, num, given);
      r == if d.Failure? then Failure(d.error) else MedoidOf(data, num.columnMeans(d.value, lev))
  {
    match ParseMethod(code)
    case Failure(e) => Failure(e)
    case Success(ByStatistic(s)) => Success(num.statistic(s, data, lev))
    case Success(Medoid(kind)) =>
      match MedoidMatrix(data, kind, num, given)
      case Failure(e) => Failure(e)
      case Success(d) => MedoidOf(data, num.columnMeans(d, lev))
  }

  /** The dispatch in terms of the method string: 'Method type unsupported'
      is raised exactly for the strings that are neither one of the seven
      letters nor 'o'-prefixed (the distance module never raises it); an 'o'
      method without a given matrix fails as its distance kind does once
      there are two points to compare; and a medoid method, when it
      succeeds, yields one of the data points. */
  lemma CentroidAcceptance(data: seq<Vector>, lev: seq<real>, code: string,
                           num: Numerics, given: Option<seq<seq<real>>>)
    requires forall kind :: num.distance(kind).Failure? ==> num.distance(kind).error != UnsupportedMethod
    ensures SingleClusterCentroid(data, lev, code, num, given) == Failure(UnsupportedMethod) <==>
      code != "" && code !in {"a", "m", "s", "g", "h", "q", "d"} && code[0] != 'o'
    ensures |code| > 0 && code[0] == 'o' && given.None? && |data| >= 2 && num.distance(code[1..]).Failure? ==>
      SingleClusterCentroid(data, lev, code, num, given) == Failure(num.distance(code[1..]).error)
    ensures |code| > 0 && code[0] == 'o' && SingleClusterCentroid(data, lev, code, num, given).Success? ==>
      SingleClusterCentroid(data, lev, code, num, given).value in data
  {
    if |code| > 0 && code[0] == 'o' {
      var kind := code[1..];
      assert ParseMethod(code) == Success(Medoid(kind));
      var d := MedoidMatrix(data, kind, num, given);
      if d.Success? {
        var scores := num.columnMeans(d.value, lev);
        if |scores| > 0 {
          IndexOfMinimumIsFirstMinimum(scores);
        }
      }
    }
  }
}
