/** `levscompare`: whether two membership matrices describe the same
    clustering up to a reordering of the clusters (columns). Each column of
    the first matrix is paired, greedily and in order, with the first column
    of the second that is close to it and not yet taken. */
module LevsCompare {
  import opened Outcomes
  import opened Matrices

  /** Column closeness under the relative and absolute tolerances
      (numpy.allclose), left abstract. */
  type Closeness = (seq<real>, seq<real>) -> bool

  /** The first column j >= from of levs2 that is close to col and not in used. */
  function FirstFree(col: seq<real>, levs2: Matrix, close: Closeness, used: seq<nat>, from: nat): (r: Option<nat>)
    requires levs2.WellFormed() && from <= levs2.cols
    ensures r.Some? ==> from <= r.value < levs2.cols
    ensures r.Some? ==> close(col, levs2.Column(r.value)) && r.value !in used
    ensures forall j :: from <= j < levs2.cols && (r.None? || j < r.value) ==>
                          !(close(col, levs2.Column(j)) && j !in used)
    decreases levs2.cols - from
  {
    if from == levs2.cols then None
    else if close(col, levs2.Column(from)) && from !in used then Some(from)
    else FirstFree(col, levs2, close, used, from + 1)
  }

  /** The partners chosen for the first c columns of levs1, in order; a column
      with no free close partner adds nothing. */
  function Greedy(levs1: Matrix, levs2: Matrix, close: Closeness, c: nat): (matches: seq<nat>)
    requires levs1.WellFormed() && levs2.WellFormed() && c <= levs1.cols
    ensures Distinct(matches)
    ensures forall i :: 0 <= i < |matches| ==> matches[i] < levs2.cols
    ensures |matches| <= c
  {
    if c == 0 then []
    else
      var prev := Greedy(levs1, levs2, close, c - 1);
      match FirstFree(levs1.Column(c - 1), levs2, close, prev, 0)
      case None => prev
      case Some(j) => prev + [j]
  }

  /** `levscompare`: matrices of different shapes are never equivalent; a
      matrix without rows fails when its first row is looked up; otherwise the
      matrices are equivalent when the sorted partner list is 0 .. cols-1,
      that is, when every column found a partner. */
  method Compare(levs1: Matrix, levs2: Matrix, close: Closeness) returns (r: Result<bool>)
    requires levs1.WellFormed() && levs2.WellFormed()
    ensures levs1.Shape() != levs2.Shape() ==> r == Success(false)
    ensures levs1.Shape() == levs2.Shape() && levs2.Height() == 0 ==> r == Failure(IndexOutOfRange)
    ensures levs1.Shape() == levs2.Shape() && levs2.Height() > 0 ==>
              r == Success(|Greedy(levs1, levs2, close, levs1.cols)| == levs1.cols)
  {
    if levs1.Shape() != levs2.Shape() {
      return Success(false);
    }
    if levs2.Height() == 0 {
      return Failure(IndexOutOfRange);
    }
    var width := |levs2.rows[0]|;
    var matches: seq<nat> := [];
    var c := 0;
    while c < levs1.cols
      invariant c <= levs1.cols
      invariant matches == Greedy(levs1, levs2, close, c)
    {
      var col := levs1.Column(c);
      ghost var prev := matches;
      var j := 0;
      while j < width
        invariant j <= width && matches == prev
        invariant FirstFree(col, levs2, close, prev, 0) == FirstFree(col, levs2, close, prev, j)
      {
        if close(col, levs2.Column(j)) && j !in matches {
          matches := matches + [j];
          break;
        }
        j := j + 1;
      }
      c := c + 1;
    }
    var equiv := multiset(matches) == multiset(Range(width));
    SortedIsRange(matches, width);
    return Success(equiv);
  }

  /** Column b of levs1 found a partner in the greedy pass. */
  predicate Paired(levs1: Matrix, levs2: Matrix, close: Closeness, b: nat)
    requires levs1.WellFormed() && levs2.WellFormed() && b < levs1.cols
  {
    FirstFree(levs1.Column(b), levs2, close, Greedy(levs1, levs2, close, b), 0).Some?
  }

  /** The partner list is full exactly when no column was left unpaired, and
      then column b of levs1 is close to its partner, column matches[b] of
      levs2: a full list is a close column permutation. */
  lemma {:induction false} GreedyFull(levs1: Matrix, levs2: Matrix, close: Closeness, c: nat)
    requires levs1.WellFormed() && levs2.WellFormed() && c <= levs1.cols
    ensures |Greedy(levs1, levs2, close, c)| == c <==>
      forall b :: 0 <= b < c ==> Paired(levs1, levs2, close, b)
    ensures |Greedy(levs1, levs2, close, c)| == c ==>
      forall b :: 0 <= b < c ==>
        close(levs1.Column(b), levs2.Column(Greedy(levs1, levs2, close, c)[b]))
  {
    if c > 0 {
      GreedyFull(levs1, levs2, close, c - 1);
      var prev := Greedy(levs1, levs2, close, c - 1);
      var m := Greedy(levs1, levs2, close, c);
      if Paired(levs1, levs2, close, c - 1) {
        assert m == prev + [FirstFree(levs1.Column(c - 1), levs2, close, prev, 0).value];
        if |m| == c {
          forall b | 0 <= b < c
            ensures close(levs1.Column(b), levs2.Column(m[b]))
          {
            if b < c - 1 {
              assert m[b] == prev[b];
            }
          }
        }
      } else {
        assert m == prev;
      }
    }
  }

  /** In a duplicate-free sequence every value occurs at most once. */
  lemma {:induction false} DistinctCounts(s: seq<nat>)
    requires Distinct(s)
    ensures forall x: nat :: multiset(s)[x] == if x in s then 1 else 0
  {
    if |s| > 0 {
      var init, last := s[..|s| - 1], s[|s| - 1];
      assert s == init + [last];
      DistinctCounts(init);
      assert last !in init;
      forall x: nat
        ensures multiset(s)[x] == if x in s then 1 else 0
      {
        assert multiset(s) == multiset(init) + multiset{last};
        assert x in s <==> x in init || x == last;
      }
    }
  }

  /** n distinct values below n are all the values below n. */
  lemma {:induction false} Pigeonhole(s: seq<nat>, n: nat)
    requires Distinct(s)
    requires forall i :: 0 <= i < |s| ==> s[i] < n
    ensures |s| <= n
    ensures |s| == n ==> forall x: nat :: x < n ==> x in s
  {
    if |s| == 0 {
    } else {
      assert s[0] < n;
      if n - 1 in s {
        var k :| 0 <= k < |s| && s[k] == n - 1;
        var rest := s[..k] + s[k + 1..];
        assert forall i :: 0 <= i < |rest| ==> rest[i] == if i < k then s[i] else s[i + 1];
        assert Distinct(rest) by {
          forall a, b | 0 <= a < b < |rest|
            ensures rest[a] != rest[b]
          {
          }
        }
        Pigeonhole(rest, n - 1);
        forall x: nat | x < n && |s| == n
          ensures x in s
        {
          if x < n - 1 {
            assert x in rest;
            var i :| 0 <= i < |rest| && rest[i] == x;
            assert if i < k then s[i] == x else s[i + 1] == x;
          }
        }
      } else {
        assert forall i :: 0 <= i < |s| ==> s[i] < n - 1 by {
          forall i | 0 <= i < |s|
            ensures s[i] < n - 1
          {
            assert s[i] in s;
          }
        }
        Pigeonhole(s, n - 1);
      }
    }
  }

  /** Sorting the distinct partner list gives 0 .. n-1 exactly when it has n
      entries; a sorted list is fixed by its multiset, so the comparison is
      a multiset comparison. */
  lemma SortedIsRange(matches: seq<nat>, n: nat)
    requires Distinct(matches)
    requires forall i :: 0 <= i < |matches| ==> matches[i] < n
    ensures multiset(matches) == multiset(Range(n)) <==> |matches| == n
  {
    if |matches| == n {
      Pigeonhole(matches, n);
      DistinctCounts(matches);
      var r: seq<nat> := Range(n);
      assert Distinct(r);
      DistinctCounts(r);
      forall x: nat
        ensures multiset(matches)[x] == multiset(r)[x]
      {
        if x < n {
          assert r[x] == x;
        }
        if x in matches {
          var i :| 0 <= i < |matches| && matches[i] == x;
        }
      }
      assert multiset(matches) == multiset(r);
    } else {
      assert |multiset(matches)| != |multiset(Range(n))|;
    }
  }

  /** The values of Range(n) are exactly those below n. */
  lemma RangeMembers(n: nat)
    ensures forall x: nat :: x in Range(n) <==> x < n
  {
    forall x: nat | x < n
      ensures x in Range(n)
    {
      assert Range(n)[x] == x;
    }
  }

  /** With a reflexive closeness, every matrix is equivalent to itself: column
      b of the first is paired with column b of the second. */
  lemma {:induction false} GreedyOnItself(levs: Matrix, close: Closeness, c: nat)
    requires levs.WellFormed() && c <= levs.cols
    requires forall j :: 0 <= j < levs.cols ==> close(levs.Column(j), levs.Column(j))
    ensures Greedy(levs, levs, close, c) == Range(c)
  {
    if c > 0 {
      GreedyOnItself(levs, close, c - 1);
      var prev := Range(c - 1);
      RangeMembers(c - 1);
      var r := FirstFree(levs.Column(c - 1), levs, close, prev, 0);
      assert close(levs.Column(c - 1), levs.Column(c - 1));
      assert r.value == c - 1;
      assert Range(c) == prev + [c - 1];
    }
  }

  /** Hence `levscompare(levs, levs)` holds for every matrix with rows. */
  lemma SelfEquivalent(levs: Matrix, close: Closeness)
    requires levs.WellFormed()
    requires forall j :: 0 <= j < levs.cols ==> close(levs.Column(j), levs.Column(j))
    ensures |Greedy(levs, levs, close, levs.cols)| == levs.cols
  {
    GreedyOnItself(levs, close, levs.cols);
  }

  /** Closeness that is reflexive, symmetric and transitive: exact equality of
      columns, or any tolerance that happens to split the columns into
      classes. `numpy.allclose` need not be one. */
  ghost predicate IsEquivalence(close: Closeness)
  {
    (forall x :: close(x, x)) &&
    (forall x, y :: close(x, y) ==> close(y, x)) &&
    (forall x, y, z :: close(x, y) && close(y, z) ==> close(x, z))
  }

  /** p reorders the columns: column b of levs1 is close to column p[b] of
      levs2, and no column of levs2 is used twice. */
  predicate Reorders(levs1: Matrix, levs2: Matrix, close: Closeness, p: seq<nat>)
    requires levs1.WellFormed() && levs2.WellFormed()
  {
    |p| == levs1.cols && Distinct(p) &&
    forall b :: 0 <= b < |p| ==> p[b] < levs2.cols && close(levs1.Column(b), levs2.Column(p[b]))
  }

  /** A subset is no larger than the set containing it. */
  lemma {:induction false} SubsetCard(a: set<nat>, b: set<nat>)
    requires a <= b
    ensures |a| <= |b|
    decreases |a|
  {
    if a != {} {
      var x :| x in a;
      SubsetCard(a - {x}, b - {x});
    }
  }

  /** A larger set has an element outside the smaller one. */
  lemma {:induction false} Leftover(s: set<nat>, u: set<nat>) returns (j: nat)
    requires |u| < |s|
    ensures j in s && j !in u
    decreases |s|
  {
    var x :| x in s;
    if x !in u {
      j := x;
    } else {
      j := Leftover(s - {x}, u - {x});
    }
  }

  /** A duplicate-free sequence maps a set of positions to as many values. */
  lemma {:induction false} InjectiveImage(a: set<nat>, f: seq<nat>)
    requires forall x :: x in a ==> x < |f|
    requires Distinct(f)
    ensures |set x | x in a :: f[x]| == |a|
    decreases |a|
  {
    if a != {} {
      var y :| y in a;
      var rest := a - {y};
      InjectiveImage(rest, f);
      assert (set x | x in a :: f[x]) == (set x | x in rest :: f[x]) + {f[y]};
    }
  }

  /** The columns of levs1 close to x. */
  function ClassIn(levs: Matrix, close: Closeness, x: seq<real>, below: nat): set<nat>
    requires levs.WellFormed() && below <= levs.cols
  {
    set a: nat | a < below && close(x, levs.Column(a))
  }

  /** Under a reordering, the class of x has at least as many columns in
      levs2 as in levs1. */
  lemma ClassNoSmaller(levs1: Matrix, levs2: Matrix, close: Closeness, p: seq<nat>, x: seq<real>)
    requires levs1.WellFormed() && levs2.WellFormed()
    requires IsEquivalence(close)
    requires Reorders(levs1, levs2, close, p)
    ensures |ClassIn(levs1, close, x, levs1.cols)| <= |ClassIn(levs2, close, x, levs2.cols)|
  {
    var s1 := ClassIn(levs1, close, x, levs1.cols);
    var s2 := ClassIn(levs2, close, x, levs2.cols);
    var image := set a | a in s1 :: p[a];
    InjectiveImage(s1, p);
    forall a | a in s1
      ensures p[a] in s2
    {
      assert close(levs1.Column(a), levs2.Column(p[a]));
    }
    SubsetCard(image, s2);
  }

  /** When the first b columns are all paired, the partners of the class of x
      among them are no more than its members among them. */
  lemma UsedNoMore(levs1: Matrix, levs2: Matrix, close: Closeness, b: nat, x: seq<real>)
    requires levs1.WellFormed() && levs2.WellFormed() && b <= levs1.cols
    requires IsEquivalence(close)
    requires |Greedy(levs1, levs2, close, b)| == b
    ensures |ClassIn(levs2, close, x, levs2.cols) * set m | m in Greedy(levs1, levs2, close, b)|
      <= |ClassIn(levs1, close, x, b)|
  {
    GreedyFull(levs1, levs2, close, b);
    var g := Greedy(levs1, levs2, close, b);
    var earlier := ClassIn(levs1, close, x, b);
    var used := ClassIn(levs2, close, x, levs2.cols) * set m | m in g;
    var image := set a | a in earlier :: g[a];
    InjectiveImage(earlier, g);
    forall m | m in used
      ensures m in image
    {
      var a :| 0 <= a < |g| && g[a] == m;
      assert close(levs1.Column(a), levs2.Column(m));
      assert a in earlier;
    }
    SubsetCard(used, image);
  }

  /** If the class of column b still has a column of levs2 that is not yet
      a partner, column b finds a partner. */
  lemma RoomMeansPaired(levs1: Matrix, levs2: Matrix, close: Closeness, b: nat)
    requires levs1.WellFormed() && levs2.WellFormed() && b < levs1.cols
    requires |Greedy(levs1, levs2, close, b)| == b
    requires var x := levs1.Column(b);
      |ClassIn(levs2, close, x, levs2.cols) * set m | m in Greedy(levs1, levs2, close, b)|
        < |ClassIn(levs2, close, x, levs2.cols)|
    ensures |Greedy(levs1, levs2, close, b + 1)| == b + 1
  {
    var g := Greedy(levs1, levs2, close, b);
    var x := levs1.Column(b);
    var s2 := ClassIn(levs2, close, x, levs2.cols);
    var j := Leftover(s2, s2 * set m | m in g);
    assert close(x, levs2.Column(j)) && j !in g;
    assert FirstFree(x, levs2, close, g, 0).Some?;
  }

  /** When the closeness is an equivalence and levs2 is levs1 with its columns
      reordered, the greedy pass pairs every column: a column's class has as
      many members in levs2 as in levs1, and the earlier columns of the class
      have used up fewer of them than there are. */
  lemma {:induction false} ReorderedIsFull(levs1: Matrix, levs2: Matrix, close: Closeness, p: seq<nat>, c: nat)
    requires levs1.WellFormed() && levs2.WellFormed() && c <= levs1.cols
    requires IsEquivalence(close)
    requires Reorders(levs1, levs2, close, p)
    ensures |Greedy(levs1, levs2, close, c)| == c
  {
    if c > 0 {
      var b := c - 1;
      ReorderedIsFull(levs1, levs2, close, p, b);
      var x := levs1.Column(b);
      var s1 := ClassIn(levs1, close, x, levs1.cols);
      ClassNoSmaller(levs1, levs2, close, p, x);
      UsedNoMore(levs1, levs2, close, b, x);
      assert b in s1;
      SubsetCard(ClassIn(levs1, close, x, b), s1 - {b});
      RoomMeansPaired(levs1, levs2, close, b);
    }
  }

  /** Hence `levscompare` finds a matrix equivalent to any reordering of its
      columns, when closeness is an equivalence. */
  lemma ReorderedEquivalent(levs1: Matrix, levs2: Matrix, close: Closeness, p: seq<nat>)
    requires levs1.WellFormed() && levs2.WellFormed()
    requires IsEquivalence(close)
    requires Reorders(levs1, levs2, close, p)
    ensures |Greedy(levs1, levs2, close, levs1.cols)| == levs1.cols
  {
    ReorderedIsFull(levs1, levs2, close, p, levs1.cols);
  }
}
