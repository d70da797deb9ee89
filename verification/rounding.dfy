/** Python's two-decimal `round` (BiogeographyAnalyzer.py line 54), taken on the exact real value: the nearest
    hundredth, with a tie going to the even hundredth. */
module Rounding {

  /** A value with at most two decimals. */
  predicate OnGrid(x: real)
  {
    (x * 100.0).Floor as real == x * 100.0
  }

  function Round2(x: real): (r: real)
    ensures -0.005 <= r - x <= 0.005
    ensures OnGrid(r)
    ensures OnGrid(x) ==> r == x
    ensures 0.0 <= x ==> 0.0 <= r
    ensures x <= 1.0 ==> r <= 1.0
  {
    var scaled := x * 100.0;
    var n := scaled.Floor;
    var frac := scaled - n as real;
    var k := if frac < 0.5 then n
             else if frac > 0.5 then n + 1
             else if n % 2 == 0 then n
             else n + 1;
    assert (k as real / 100.0) * 100.0 == k as real;
    k as real / 100.0
  }

  /** No rounding at all: the propagation carried out exactly. */
  function Identity(x: real): real
  {
    x
  }

  lemma RoundHalf()
    ensures Round2(1.0 / 2.0) == 0.5
  {
    assert OnGrid(0.5) by { assert (0.5 * 100.0).Floor == 50; }
  }

  lemma RoundSixth()
    ensures Round2(1.0 / 6.0) == 0.17
  {
    assert (100.0 / 6.0).Floor == 16;
  }

  lemma RoundTwoThirds()
    ensures Round2(2.0 / 3.0) == 0.67
    ensures Round2(1.0 / 3.0) == 0.33
  {
    assert (200.0 / 3.0).Floor == 66;
    assert (100.0 / 3.0).Floor == 33;
  }
}
