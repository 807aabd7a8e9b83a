/** Little-endian mixed-radix numbers: the arithmetic behind the odometer
    that enumerates the combinations of a multi-valued centroid. Digit m runs
    from 0 to k[m] - 1, and digit 0 turns fastest. */
module MixedRadix {

  /** The number of digit vectors: the product of the radices (1 for none). */
  function Prod(k: seq<nat>): nat
  {
    if |k| == 0 then 1 else k[0] * Prod(k[1..])
  }

  /** The digits of n under radices k, least significant first. A zero radix
      admits no digit at all; it is given digit 0 only to keep this total. */
  function Digits(n: nat, k: seq<nat>): (d: seq<nat>)
    ensures |d| == |k|
    decreases |k|
  {
    if |k| == 0 then []
    else if k[0] == 0 then [0] + Digits(0, k[1..])
    else [n % k[0]] + Digits(n / k[0], k[1..])
  }

  /** The number a digit vector stands for. The last digit is not bounded by
      its radix, so a vector whose top digit has overflowed still has a value. */
  function Value(d: seq<nat>, k: seq<nat>): nat
    requires |d| == |k|
    decreases |d|
  {
    if |d| == 0 then 0 else d[0] + k[0] * Value(d[1..], k[1..])
  }

  /** Every digit is below its radix. */
  predicate InRange(d: seq<nat>, k: seq<nat>)
  {
    |d| == |k| && forall m :: 0 <= m < |k| ==> d[m] < k[m]
  }

  /** Every digit is below its radix, except digit `at`, which may equal it:
      the state while a carry is still to be propagated from `at`. */
  predicate CarryPending(d: seq<nat>, k: seq<nat>, at: nat)
  {
    && |d| == |k| && at < |k|
    && d[at] <= k[at]
    && forall m :: 0 <= m < |k| && m != at ==> d[m] < k[m]
  }

  lemma MulMonotone(b: nat, x: nat, y: nat)
    requires x <= y
    ensures b * x <= b * y
  {
    var t := y - x;
    assert b * y == b * x + b * t;
  }

  lemma MulStrict(a: nat, x: nat, y: nat)
    requires a * x < a * y
    ensures x < y
  {
    if y <= x {
      MulMonotone(a, y, x);
    }
  }

  /** Euclidean division of r + b * q by b, for r < b, gives back q and r. */
  lemma DivModUnique(r: nat, q: nat, b: nat)
    requires r < b
    ensures (r + b * q) % b == r
    ensures (r + b * q) / b == q
  {
    var n := r + b * q;
    var q', r' := n / b, n % b;
    assert n == b * q' + r';
    if q' > q {
      assert b * (q + 1) == b * q + b;
      MulMonotone(b, q + 1, q');
    } else if q' < q {
      assert b * (q' + 1) == b * q' + b;
      MulMonotone(b, q' + 1, q);
    }
  }

  /** A positive number of combinations means every radix is positive. */
  lemma {:induction false} ProdPositive(k: seq<nat>)
    requires Prod(k) > 0
    ensures forall m :: 0 <= m < |k| ==> k[m] > 0
  {
    if |k| > 0 {
      assert k[0] != 0;
      ProdPositive(k[1..]);
      assert forall m :: 1 <= m < |k| ==> k[m] == k[1..][m - 1];
    }
  }

  /** Below the number of combinations, the digits are in range and spell n. */
  lemma {:induction false} ValueOfDigits(n: nat, k: seq<nat>)
    requires n < Prod(k)
    ensures InRange(Digits(n, k), k)
    ensures Value(Digits(n, k), k) == n
    decreases |k|
  {
    if |k| > 0 {
      var k0, p := k[0], Prod(k[1..]);
      assert Prod(k) == k0 * p;
      assert k0 > 0;
      var q, r := n / k0, n % k0;
      assert n == k0 * q + r;
      MulStrict(k0, q, p);
      ValueOfDigits(q, k[1..]);
      var d := Digits(n, k);
      assert d == [r] + Digits(q, k[1..]);
      assert d[1..] == Digits(q, k[1..]);
      assert forall m :: 1 <= m < |k| ==> d[m] == d[1..][m - 1] && k[m] == k[1..][m - 1];
    }
  }

  /** In-range digit vectors denote a number below the number of
      combinations, and their digits are recovered from it. */
  lemma {:induction false} DigitsOfValue(d: seq<nat>, k: seq<nat>)
    requires InRange(d, k)
    ensures Value(d, k) < Prod(k)
    ensures Digits(Value(d, k), k) == d
  {
    if |k| > 0 {
      var k0, p := k[0], Prod(k[1..]);
      assert InRange(d[1..], k[1..]) by {
        assert forall m :: 0 <= m < |k| - 1 ==> d[1..][m] == d[m + 1] && k[1..][m] == k[m + 1];
      }
      DigitsOfValue(d[1..], k[1..]);
      var v := Value(d[1..], k[1..]);
      assert Value(d, k) == d[0] + k0 * v;
      assert k0 * (v + 1) == k0 * v + k0;
      MulMonotone(k0, v + 1, p);
      DivModUnique(d[0], v, k0);
      assert Digits(Value(d, k), k) == [d[0]] + Digits(v, k[1..]);
    }
  }

  /** Adding one to the lowest digit adds one to the value. */
  lemma ValueBump(d: seq<nat>, k: seq<nat>)
    requires |d| == |k| > 0
    ensures Value(d[0 := d[0] + 1], k) == Value(d, k) + 1
  {
    assert d[0 := d[0] + 1][1..] == d[1..];
  }

  /** Replacing a digit equal to its radix by 0 and adding one to the next
      digit leaves the value unchanged. */
  lemma {:induction false} ValueCarry(d: seq<nat>, k: seq<nat>, m: nat)
    requires |d| == |k| && m + 1 < |k|
    requires d[m] == k[m]
    ensures Value(d[m := 0][m + 1 := d[m + 1] + 1], k) == Value(d, k)
  {
    var e := d[m := 0][m + 1 := d[m + 1] + 1];
    if m == 0 {
      assert e[1..] == d[1..][0 := d[1] + 1];
      ValueBump(d[1..], k[1..]);
      var v := Value(d[1..], k[1..]);
      assert k[0] * (v + 1) == k[0] * v + k[0];
    } else {
      assert e[1..] == d[1..][m - 1 := 0][m := d[1..][m] + 1];
      ValueCarry(d[1..], k[1..], m - 1);
    }
  }

  /** When only the top digit may exceed its radix, a value below the number
      of combinations forces every digit into range. */
  lemma {:induction false} Settled(d: seq<nat>, k: seq<nat>)
    requires |d| == |k| > 0
    requires forall m :: 0 <= m < |k| - 1 ==> d[m] < k[m]
    requires Value(d, k) < Prod(k)
    ensures InRange(d, k)
  {
    var v := Value(d[1..], k[1..]);
    if |k| == 1 {
      assert Value(d, k) == d[0];
      assert Prod(k) == k[0];
    } else {
      assert d[0] < k[0];
      assert k[0] * v < k[0] * Prod(k[1..]);
      MulStrict(k[0], v, Prod(k[1..]));
      assert forall m :: 0 <= m < |k| - 1 ==> d[1..][m] == d[m + 1] && k[1..][m] == k[m + 1];
      Settled(d[1..], k[1..]);
    }
  }

  /** Zero is the all-zero digit vector. */
  lemma {:induction false} DigitsOfZero(k: seq<nat>)
    ensures Digits(0, k) == seq(|k|, _ => 0)
  {
    if |k| > 0 {
      DigitsOfZero(k[1..]);
    }
  }

  /** The odometer's enumeration order is a bijection: the numbers below the
      number of combinations and the in-range digit vectors correspond one to
      one through Digits, so every combination is visited exactly once. */
  lemma Enumeration(k: seq<nat>)
    ensures forall n: nat :: n < Prod(k) ==> InRange(Digits(n, k), k)
    ensures forall a: nat, b: nat :: a < Prod(k) && b < Prod(k) && Digits(a, k) == Digits(b, k) ==> a == b
    ensures forall d: seq<nat> :: InRange(d, k) ==> Value(d, k) < Prod(k) && Digits(Value(d, k), k) == d
  {
    forall n: nat | n < Prod(k)
      ensures InRange(Digits(n, k), k)
    {
      ValueOfDigits(n, k);
    }
    forall a: nat, b: nat | a < Prod(k) && b < Prod(k) && Digits(a, k) == Digits(b, k)
      ensures a == b
    {
      ValueOfDigits(a, k);
      ValueOfDigits(b, k);
    }
    forall d: seq<nat> | InRange(d, k)
      ensures Value(d, k) < Prod(k) && Digits(Value(d, k), k) == d
    {
      DigitsOfValue(d, k);
    }
  }
}
