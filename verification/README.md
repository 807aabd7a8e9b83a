# cluster statistics — a Dafny model

This project models the method-independent support routines of the `cluster`
package's `stats.py`. These are the routines that check, compare and measure
clustering results:

- the two distance-matrix builders: the ragged lower triangle and the full
  symmetric matrix;
- the distance-row lookup of the fuzzy `silhouette` coefficient, and the way it
  zeroes one row of the membership matrix `levs` and writes it back once the
  arithmetic has succeeded;
- the membership-matrix validator `levscheck`;
- the method dispatch and medoid choice of `singleclustercentroid`;
- the squared-error matrix `SEmatrix`: its mixed-radix odometer over the
  modal values of a multi-valued centroid, and its link rule (maximum, single
  or average link);
- `levscompare`, which decides whether two membership matrices describe the
  same clustering up to a relabelling of the clusters.

Data points are `seq<real>` vectors. A membership matrix is a `Matrix` that
records its column count, so a matrix with no rows still has a width, as a
numpy array does. The distance function, the weighted statistics, the
`numpy.round(..., percision) == 1` normalisation test and the
`numpy.allclose` column test are parameters of the model. The Python
exceptions the code raises are the `Outcomes.Error` kinds: `ValueError` for
an unsupported method, an unsupported link, an unknown distance kind, an empty
reduction or arrays that do not broadcast, `IndexError` for an out-of-range
lookup, and `UnboundLocalError` from the distance module.

Files:

- `outcomes.dfy`: `Result`, `Option` and the error kinds.
- `matrices.dfy`: vectors, matrices, sums, minimum and maximum.
- `distance_matrix.dfy`: `distancematrix` and `fulldistancematrix`.
- `silhouette.dfy`: the distance row and the `levs` row handling of `silhouette`.
- `levs_check.dfy`: `levscheck`.
- `centroid.dfy`: `singleclustercentroid`.
- `mixed_radix.dfy`: little-endian mixed-radix digits, the arithmetic behind the odometer.
- `squared_error.dfy`: `SEmatrix`.
- `levs_compare.dfy`: `levscompare`.

## Model

| member | source | states |
|---|---|---|
| DistanceMatrices.DistanceMatrix | stats.py:53-68 | one row per data point; row i has exactly i entries (row 0 is empty), and entry j of row i is the distance from point i to point j |
| DistanceMatrices.FullDistanceMatrix | stats.py:98-111 | an n×n matrix with an all-zero diagonal and a symmetric off-diagonal; the lower entry (i, j), j < i, is the distance from point i to point j |
| DistanceMatrices.FullMatrixOf | stats.py:92-94 | a reference full distance matrix built entry by entry, which has the documented shape, symmetry and zero diagonal |
| DistanceMatrices.FullMatrixUnique | stats.py:92-94 | the documented properties determine the full matrix: any matrix having them equals the reference matrix |
| DistanceMatrices.FullAgreesWithLower | stats.py:44-49 | every off-diagonal entry (i, j) of the full matrix is entry [max(i,j)][min(i,j)] of the lower triangle built from the same data |
| Silhouette.RaggedRow | stats.py:181-188 | the row rebuilt from the ragged form has length len(dm), 0 at the point itself and dm[max(i,point)][min(i,point)] elsewhere; an out-of-range point raises IndexError unless dm is empty |
| Silhouette.PointDistances | stats.py:176-190 | the three ways of getting the point's distances: from the data, entry i being the distance from the point to point i (IndexError for an out-of-range point when there is data), from the ragged matrix, or row `point` of a dense matrix |
| Silhouette.RaggedRowIsFullRow | stats.py:181-188 | the row rebuilt from the lower triangle is exactly row `point` of the full matrix of the same data |
| Silhouette.DataRowIsFullRow | stats.py:176-180 | for a symmetric distance that is zero on equal points, the row computed from the data is also row `point` of the full matrix |
| Silhouette.MaskRow | stats.py:192-193 | row `point` becomes all zeros and every other row, and the shape, is unchanged |
| Silhouette.RestoreRow | stats.py:201 | row `point` becomes the saved copy and every other row is unchanged |
| Silhouette.MaskThenRestore | stats.py:192-201 | blanking row `point` and writing back its copy gives back the original matrix |
| Silhouette.Silhouette | stats.py:176-202 | a failed distance lookup, or an out-of-range `levs[point]` (IndexError), fails with `levs` untouched; otherwise the arithmetic sees the distance row, the matrix with row `point` zeroed and the saved row; on success `levs` is exactly as before, and when the arithmetic raises, row `point` stays zeroed |
| Silhouette.OtherRowsUntouched | stats.py:192-201 | whatever the outcome, every row of `levs` other than row `point`, and the shape, is unchanged |
| LevsCheck.IndicesWhere | stats.py:250-260 | the indices collected by a scan are ascending and are exactly the positions whose test holds |
| LevsCheck.Offenders | stats.py:249-260 | the list guarded by `if not all(...)` is still exactly the ascending list of failing positions |
| LevsCheck.Check | stats.py:243-262 | `normal` is exactly the rows whose sum does not round to 1, `empty` exactly the columns with sum ≤ 0, `full` exactly the columns whose sum is at least the row count, each ascending; `result` holds iff every entry is in [0,1] and all three lists are empty |
| LevsCheck.LegalIffWellBehaved | stats.py:205-210 | a matrix is legal iff its entries lie in [0,1], every row is normalised and every column sum lies strictly between 0 and the number of points |
| Centroids.ParseMethod | stats.py:325-348 | exactly the seven statistic letters and the strings starting with `o` are accepted; the empty string raises IndexError at `method[0]`; anything else raises ValueError; an accepted method is the one its string names |
| Centroids.ParseMethodCode | stats.py:284-298 | every centroid method is recognised from its own method string |
| Centroids.IndexOf | stats.py:345 | `list.index`: the first position holding the value |
| Centroids.IndexOfMinimumIsFirstMinimum | stats.py:345 | `d.index(min(d))` is the unique first position of a smallest value: no earlier entry is as small and no entry is smaller |
| Centroids.MedoidOf | stats.py:344-346 | the medoid is the data point at the first position of the minimum score; no scores is an empty reduction |
| Centroids.MedoidMatrix | stats.py:340-343 | the medoid's distance matrix is the given one, or else the full matrix under the method's distance kind; a kind the distance module cannot use fails with the error that module raises for it (IndexError for `''` or `'s'`, ValueError for an unrecognised kind, UnboundLocalError for an unknown spearman variant), but only once there are two points; with fewer the matrix is all zeros |
| Centroids.SingleClusterCentroid | stats.py:324-349 | an unknown method is rejected; a statistic method returns that statistic; a medoid method fails when its distance matrix does, and otherwise scores the points on that matrix and returns the first best point |
| Centroids.CentroidAcceptance | stats.py:339-348 | ValueError('Method type unsupported.') exactly for the strings that are neither a statistic letter nor start with `o`; an `o` method without a given matrix fails with its distance kind's error once there are two points; a medoid result is one of the data points |
| MixedRadix.ValueOfDigits | stats.py:461-473 | the digits of n below the product of the radices are in range and read back as n |
| MixedRadix.DigitsOfValue | stats.py:461-473 | an in-range digit sequence reads as a number below the product of the radices, whose digits are that sequence |
| MixedRadix.ValueBump | stats.py:469 | adding one to the lowest digit adds one to the value read |
| MixedRadix.ValueCarry | stats.py:470-473 | resetting a digit that reached its radix and carrying one into the next digit leaves the value unchanged |
| MixedRadix.Settled | stats.py:470-473 | once every digit below the top is under its radix and the value is below the product, every digit is in range |
| MixedRadix.DigitsOfZero | stats.py:462 | the odometer starts from all-zero digits, the digits of 0 |
| MixedRadix.Enumeration | stats.py:461-473 | the digit sequences of 0 .. ∏k-1 are all in range and pairwise distinct, and every in-range sequence is one of them: each combination is visited exactly once |
| SquaredError.Advance | stats.py:469-473 | one odometer turn takes the digits of n to the digits of n+1 while another combination remains |
| SquaredError.ModeDistances | stats.py:461-468 | the loop computes ∏k distances, entry n being the distance to the combination whose digits are those of n; a centroid without dimensions is an error |
| SquaredError.ModeDistancesInOrder | stats.py:461-468 | those distances are exactly the reference list of combination distances in enumeration order |
| SquaredError.LinkDistance | stats.py:474-481 | link m gives the largest distance, s the smallest, a their mean; any other link raises ValueError; an empty list is an empty reduction |
| SquaredError.Mean | stats.py:479 | the mean of a non-empty list, taken as many times as there are entries, is their sum |
| SquaredError.MeanIsBetween | stats.py:478-479 | the mean of a non-empty list lies between its minimum and its maximum |
| SquaredError.UnknownLinkRejected | stats.py:474-481 | a multi-valued centroid with dimensions gives ValueError exactly when the link is not m, s or a |
| SquaredError.ContributionOf | stats.py:459-484 | the odometer computation of one entry equals the reference entry |
| SquaredError.SquaredErrorMatrix | stats.py:455-485 | a levs without rows raises IndexError; rows of levs beyond the data are ignored; on success the matrix is len(data)×clusters with every entry the reference entry; a failure is the error of the first failing entry in row-major order; an unknown link with multi-valued centroids is rejected |
| LevsCompare.FirstFree | stats.py:523-526 | the partner found is close and unused, and no earlier column is both |
| LevsCompare.Greedy | stats.py:521-526 | the greedy partner list has distinct entries, all valid columns, and at most one entry per column of levs1 |
| LevsCompare.Compare | stats.py:518-529 | different shapes are never equivalent; equal shapes with no rows raise IndexError; otherwise the result is whether every column found a partner |
| LevsCompare.GreedyFull | stats.py:521-528 | the partner list is full iff every column found a partner, and then each column of levs1 is close to its partner in levs2 |
| LevsCompare.SortedIsRange | stats.py:527-528 | a distinct list of column indices sorts to 0 .. n-1 exactly when it has n entries |
| LevsCompare.GreedyOnItself | stats.py:490-496 | with a reflexive closeness, column b of a matrix is paired with column b of itself |
| LevsCompare.SelfEquivalent | stats.py:490-496 | with a reflexive closeness, every matrix with rows is equivalent to itself |
| LevsCompare.ClassNoSmaller | stats.py:494-495 | when levs2 reorders the columns of levs1 and closeness is an equivalence, each class of columns has at least as many members in levs2 as in levs1 |
| LevsCompare.UsedNoMore | stats.py:521-526 | when the first b columns are all paired, the partners taken from a class are no more than the class's members among those b columns |
| LevsCompare.RoomMeansPaired | stats.py:523-526 | a column whose class still has an untaken column in levs2 is paired |
| LevsCompare.ReorderedIsFull | stats.py:490-496 | with an equivalence closeness and levs2 a reordering of the columns of levs1, the greedy pass pairs every column |
| LevsCompare.ReorderedEquivalent | stats.py:490-496 | hence, under an equivalence closeness, a matrix is equivalent to any reordering of its columns |

## Left out

- `distances.distance` and the `_support` statistics (mean, median, mode and the rest) are foreign calls. They are function parameters; the medoid's weighted mean distance arrives as a parameter of `Numerics`.
- Centroids.MedoidMatrix: which distance kinds are recognised, and what an unusable kind raises, is a parameter. The distance module returns NaN without looking at the kind for an all-NaN pair of points; the model fails on an unknown kind whatever the data.
- Silhouette.Silhouette: the coefficient arithmetic is a parameter that may fail, so the shapes for which numpy's broadcasting fails are not spelled out.
- The silhouette arithmetic (stats.py:191-200), including the overwritten assignment at stats.py:199, is a parameter (`Coefficients`). Only the distance row and the `levs` handling are modelled.
- `lev**p` is a parameter (`power` in `SEmatrix`, the given weights in `singleclustercentroid`). The squared distance is modelled as a product of exact reals.
- `numpy.round(..., percision) == 1` and `numpy.allclose(..., rtol, atol)` are abstract predicates (`roundsToOne`, `close`), because they are floating-point tolerances.
- Floating-point sums, means and rounding are exact real arithmetic.
- Verbose progress printing (stats.py:54-66, stats.py:99-110) is output only and is not modelled.
- `clustercentroids` and its warnings (stats.py:351-404) are not part of this model. `SEmatrix` takes `cdata` as given, so its `cdata is None` branch (stats.py:455-456) is left out.
- SquaredError.LinkDistance: the average of an empty distance list is NaN in numpy. The model reports it as an empty reduction, like `max` and `min` of an empty array.
- SquaredError.ModeDistances: a multi-valued centroid with no dimensions fails in numpy when it sizes the distance array. The model reports this as `NoDimensions` rather than naming numpy's exception.
- SquaredError.SquaredErrorMatrix: requires as many centroids as clusters and at least one `levs` row per data point. The source raises IndexError when there are more centroids or fewer rows than data points, and leaves zero columns when there are fewer centroids; none of these cases is modelled.
- Negative Python indices are not modelled: `point` is a natural number.
- `distance(..., weights, dist)` in `SEmatrix` passes no weights. The model's distance parameter stands for whichever distance the call uses.
- LevsCompare.Compare: the result is stated through the greedy partner list, not as "a close column permutation exists". With a closeness that is not transitive, as `allclose` can be, greedy first-fit can miss a permutation that exists, and the model keeps the greedy rule. The reordering is always found when closeness is an equivalence (`LevsCompare.ReorderedEquivalent`).
