/** Quantiles of a column the way pandas computes them by default: sort the
    values and interpolate linearly between the two order statistics around the
    fractional position (n - 1) * q. */
module Quantiles {

  predicate Sorted(s: seq<real>) {
    forall i, j | 0 <= i <= j < |s| :: s[i] <= s[j]
  }

  /** Places `x` into a sorted sequence. */
  function Insert(x: real, s: seq<real>): (r: seq<real>)
    requires Sorted(s)
    ensures Sorted(r)
    ensures multiset(r) == multiset(s) + multiset{x}
  {
    if |s| == 0 then [x]
    else if x <= s[0] then [x] + s
    else
      var rest := Insert(x, s[1..]);
      assert s == [s[0]] + s[1..];
      forall k | 0 <= k < |rest| ensures s[0] <= rest[k] {
        assert rest[k] in multiset(rest);
        if rest[k] != x {
          var m :| 0 <= m < |s[1..]| && s[1..][m] == rest[k];
          assert s[m + 1] == rest[k];
        }
      }
      var r := [s[0]] + rest;
      assert forall i | 0 < i < |r| :: r[i] == rest[i - 1];
      r
  }

  /** The column's values in ascending order. */
  function Sort(s: seq<real>): (r: seq<real>)
    ensures Sorted(r)
    ensures multiset(r) == multiset(s)
  {
    if |s| == 0 then []
    else
      assert s == [s[0]] + s[1..];
      Insert(s[0], Sort(s[1..]))
  }

  /** The q-quantile of a sorted, non-empty sequence by linear interpolation.
      It lies between the order statistics either side of position (n - 1) * q. */
  function Quantile(s: seq<real>, q: real): (r: real)
    requires Sorted(s) && |s| > 0 && 0.0 <= q <= 1.0
    ensures s[0] <= r <= s[|s| - 1]
    ensures var k := Position(|s|, q).Floor;
      0 <= k < |s| && s[k] <= r && (k + 1 < |s| ==> r <= s[k + 1])
  {
    var h := Position(|s|, q);
    var k := h.Floor;
    PositionInRange(|s|, q);
    if k + 1 < |s| then
      Lerp(s[k], s[k + 1], h - k as real)
    else
      s[k]
  }

  /** The fractional position (n - 1) * q. */
  function Position(n: nat, q: real): real {
    (n - 1) as real * q
  }

  lemma PositionInRange(n: nat, q: real)
    requires n > 0 && 0.0 <= q <= 1.0
    ensures 0.0 <= Position(n, q) <= (n - 1) as real
    ensures 0 <= Position(n, q).Floor < n
  {
    var m := (n - 1) as real;
    NonNegativeProduct(m, q);
    NonNegativeProduct(m, 1.0 - q);
  }

  /** Linear interpolation between a and b at fraction t in [0, 1). */
  function Lerp(a: real, b: real, t: real): (r: real)
    requires a <= b && 0.0 <= t < 1.0
    ensures a <= r <= b
  {
    assert t * (b - a) <= b - a by {
      NonNegativeProduct(b - a, 1.0 - t);
    }
    NonNegativeProduct(t, b - a);
    a + t * (b - a)
  }

  lemma NonNegativeProduct(x: real, y: real)
    requires x >= 0.0 && y >= 0.0
    ensures x * y >= 0.0
  {
  }

  /** Interpolation is monotone in the fraction. */
  lemma LerpMonotone(a: real, b: real, t1: real, t2: real)
    requires a <= b && 0.0 <= t1 <= t2 < 1.0
    ensures Lerp(a, b, t1) <= Lerp(a, b, t2)
  {
    NonNegativeProduct(t2 - t1, b - a);
  }

  /** A larger quantile is never smaller. */
  lemma QuantileMonotone(s: seq<real>, q1: real, q2: real)
    requires Sorted(s) && |s| > 0 && 0.0 <= q1 <= q2 <= 1.0
    ensures Quantile(s, q1) <= Quantile(s, q2)
  {
    var h1, h2 := Position(|s|, q1), Position(|s|, q2);
    NonNegativeProduct((|s| - 1) as real, q2 - q1);
    var k1, k2 := h1.Floor, h2.Floor;
    PositionInRange(|s|, q1);
    PositionInRange(|s|, q2);
    if k1 == k2 {
      if k1 + 1 < |s| {
        LerpMonotone(s[k1], s[k1 + 1], h1 - k1 as real, h2 - k2 as real);
      }
    } else {
      assert k1 + 1 <= k2;
      assert Quantile(s, q1) <= s[k1 + 1];
      assert s[k1 + 1] <= s[k2];
    }
  }
}
