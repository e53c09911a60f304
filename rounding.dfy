/** Python's `round(x, 2)` on an exact real: to the nearest hundredth, a tie
    going to the even hundredth. */
module Rounding {

  function Abs(x: real): (r: real)
    ensures r >= 0.0 && (r == x || r == -x)
  {
    if x < 0.0 then -x else x
  }

  /** Whether `c` lies exactly halfway between the integers `n` and its neighbour. */
  predicate IsTie(c: real, n: int) {
    Abs(n as real - c) == 0.5
  }

  /** The integer nearest to `c`, a tie going to the even one. */
  function RoundHalfEven(c: real): (n: int)
    ensures Abs(n as real - c) <= 0.5
    ensures IsTie(c, n) ==> n % 2 == 0
  {
    var f := c.Floor;
    var frac := c - f as real;
    if frac < 0.5 then f
    else if frac > 0.5 then f + 1
    else if f % 2 == 0 then f
    else f + 1
  }

  /** No integer is nearer to `c` than the rounded one. */
  lemma RoundHalfEvenIsNearest(c: real, k: int)
    ensures Abs(RoundHalfEven(c) as real - c) <= Abs(k as real - c)
  {
    var n := RoundHalfEven(c);
    if k < n {
      assert k as real <= n as real - 1.0;
    } else if k > n {
      assert k as real >= n as real + 1.0;
    }
  }

  /** The two properties of `RoundHalfEven` single out its result. */
  lemma RoundHalfEvenUnique(c: real, m: int)
    requires Abs(m as real - c) <= 0.5
    requires IsTie(c, m) ==> m % 2 == 0
    ensures m == RoundHalfEven(c)
  {
  }

  /** A whole number of hundredths. */
  predicate IsCents(x: real) {
    (x * 100.0).Floor as real == x * 100.0
  }

  /** `round(x, 2)`, applied once to the exact value. */
  function Round2(x: real): (r: real)
    ensures IsCents(r)
    ensures Abs(r - x) <= 0.005
    ensures Abs(r * 100.0 - x * 100.0) == 0.5 ==> (r * 100.0).Floor % 2 == 0
  {
    var n := RoundHalfEven(x * 100.0);
    assert (n as real / 100.0) * 100.0 == n as real;
    n as real / 100.0
  }

  /** The three properties of `Round2` single out its result: it is the
      nearest whole number of hundredths, a tie going to the even one. */
  lemma Round2Unique(x: real, c: real)
    requires IsCents(c) && Abs(c - x) <= 0.005
    requires Abs(c * 100.0 - x * 100.0) == 0.5 ==> (c * 100.0).Floor % 2 == 0
    ensures c == Round2(x)
  {
    var m := (c * 100.0).Floor;
    assert Abs(m as real - x * 100.0) == 100.0 * Abs(c - x);
    RoundHalfEvenUnique(x * 100.0, m);
  }

  /** Halfway cases go to the even hundredth: `round(0.125, 2) == 0.12` but
      `round(0.135, 2) == 0.14`. */
  lemma Round2Ties()
    ensures Round2(0.125) == 0.12 && Round2(0.135) == 0.14
  {
    assert RoundHalfEven(12.5) == 12;
    assert RoundHalfEven(13.5) == 14;
  }

  /** A price already in whole hundredths is left as it is. */
  lemma Round2OfCents(x: real)
    requires IsCents(x)
    ensures Round2(x) == x
  {
    var c := x * 100.0;
    RoundHalfEvenUnique(c, c.Floor);
  }

  /** Rounding twice is rounding once. */
  lemma Round2Idempotent(x: real)
    ensures Round2(Round2(x)) == Round2(x)
  {
    Round2OfCents(Round2(x));
  }

  /** Ties to even are symmetric about zero: `round(-x, 2) == -round(x, 2)`. */
  lemma Round2Negate(x: real)
    ensures Round2(-x) == -Round2(x)
  {
    var n := RoundHalfEven(x * 100.0);
    assert (-x) * 100.0 == -(x * 100.0);
    assert IsTie(-(x * 100.0), -n) == IsTie(x * 100.0, n);
    RoundHalfEvenUnique(-(x * 100.0), -n);
  }

  lemma RoundHalfEvenMonotone(a: real, b: real)
    requires a <= b
    ensures RoundHalfEven(a) <= RoundHalfEven(b)
  {
    var na, nb := RoundHalfEven(a), RoundHalfEven(b);
    if nb < na {
      assert false;
    }
  }

  /** A larger amount never rounds to a smaller price. */
  lemma Round2Monotone(x: real, y: real)
    requires x <= y
    ensures Round2(x) <= Round2(y)
  {
    RoundHalfEvenMonotone(x * 100.0, y * 100.0);
  }
}
