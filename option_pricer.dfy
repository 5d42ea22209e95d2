/**
 * `d1`, `Vc` and `Vp` of test/utils.js: the value of a European call and
 * put. The source binds `snd` to `tableSnd` and calls it twice in each
 * formula; here the pricing functions take the distribution function as
 * the parameter `snd`, and `Call`/`Put` fix it to `TableSnd`.
 *
 * `Math.log` and `Math.sqrt` are not modelled; they are passed in as the
 * functions `ln` and `sqrt`. The arithmetic is exact (`real`).
 */
module OptionPricer {
  import opened RealFacts
  import opened NormalTable

  /**
   * What the pricing uses of a distribution function: values in [0, 1],
   * snd(x) + snd(-x) = 1, and never decreasing.
   */
  ghost predicate Distribution(snd: real -> real) {
    && (forall x :: 0.0 <= snd(x) <= 1.0)
    && (forall x, y :: x + y == 0.0 ==> snd(x) + snd(y) == 1.0)
    && (forall x, y :: x <= y ==> snd(x) <= snd(y))
  }

  /** tableSnd has every property the pricing relies on. */
  lemma TableSndIsDistribution()
    ensures Distribution(TableSnd)
  {
    forall x, y | x + y == 0.0
      ensures TableSnd(x) + TableSnd(y) == 1.0
    {
      assert y == -x;
      TableSndSymmetric(x);
    }
    forall x, y | x <= y
      ensures TableSnd(x) <= TableSnd(y)
    {
      TableSndMonotone(x, y);
    }
  }

  /** `d1(S0, K, sigma, miu, T) = (ln(K / S0) + (sigma^2 / 2 - miu) * T) / sigma` */
  function D1(s0: real, k: real, sigma: real, miu: real, t: real, ln: real -> real): real
    requires s0 != 0.0 && sigma != 0.0
  {
    (ln(k / s0) + (sigma * sigma / 2.0 - miu) * t) / sigma
  }

  /** `S0 * (1 + miu * T)`: the spot grown at rate miu over T. */
  function Forward(s0: real, miu: real, t: real): real {
    s0 * (1.0 + miu * t)
  }

  /** The upper argument of snd in Vc and Vp: d1 / sqrt(T). */
  function Upper(s0: real, k: real, sigma: real, miu: real, t: real,
                 ln: real -> real, sqrt: real -> real): real
    requires s0 != 0.0 && sigma != 0.0 && sqrt(t) != 0.0
  {
    D1(s0, k, sigma, miu, t, ln) / sqrt(t)
  }

  /** The lower argument: d1 / sqrt(T) - sigma * sqrt(T). */
  function Lower(s0: real, k: real, sigma: real, miu: real, t: real,
                 ln: real -> real, sqrt: real -> real): real
    requires s0 != 0.0 && sigma != 0.0 && sqrt(t) != 0.0
  {
    Upper(s0, k, sigma, miu, t, ln, sqrt) - sigma * sqrt(t)
  }

  /** Vc over a distribution function snd: F (1 - snd(lower)) - K (1 - snd(upper)). */
  function CallWith(snd: real -> real, s0: real, k: real, sigma: real, miu: real, t: real,
                    ln: real -> real, sqrt: real -> real): real
    requires s0 != 0.0 && sigma != 0.0 && sqrt(t) != 0.0
  {
    Forward(s0, miu, t) * (1.0 - snd(Lower(s0, k, sigma, miu, t, ln, sqrt)))
      - k * (1.0 - snd(Upper(s0, k, sigma, miu, t, ln, sqrt)))
  }

  /** Vp over a distribution function snd: K snd(upper) - F snd(lower). */
  function PutWith(snd: real -> real, s0: real, k: real, sigma: real, miu: real, t: real,
                   ln: real -> real, sqrt: real -> real): real
    requires s0 != 0.0 && sigma != 0.0 && sqrt(t) != 0.0
  {
    k * snd(Upper(s0, k, sigma, miu, t, ln, sqrt))
      - Forward(s0, miu, t) * snd(Lower(s0, k, sigma, miu, t, ln, sqrt))
  }

  /** Vc, with snd = tableSnd. */
  function Call(s0: real, k: real, sigma: real, miu: real, t: real,
                ln: real -> real, sqrt: real -> real): real
    requires s0 != 0.0 && sigma != 0.0 && sqrt(t) != 0.0
  {
    CallWith(TableSnd, s0, k, sigma, miu, t, ln, sqrt)
  }

  /** Vp, with snd = tableSnd. */
  function Put(s0: real, k: real, sigma: real, miu: real, t: real,
               ln: real -> real, sqrt: real -> real): real
    requires s0 != 0.0 && sigma != 0.0 && sqrt(t) != 0.0
  {
    PutWith(TableSnd, s0, k, sigma, miu, t, ln, sqrt)
  }

  // ------------------------------------------------------------ properties

  /** Put-call parity: Vc - Vp = S0 (1 + miu T) - K, whatever snd returns. */
  lemma PutCallParity(snd: real -> real, s0: real, k: real, sigma: real, miu: real, t: real,
                      ln: real -> real, sqrt: real -> real)
    requires s0 != 0.0 && sigma != 0.0 && sqrt(t) != 0.0
    ensures CallWith(snd, s0, k, sigma, miu, t, ln, sqrt) - PutWith(snd, s0, k, sigma, miu, t, ln, sqrt)
         == Forward(s0, miu, t) - k
  {
    var f := Forward(s0, miu, t);
    var lo := snd(Lower(s0, k, sigma, miu, t, ln, sqrt));
    var up := snd(Upper(s0, k, sigma, miu, t, ln, sqrt));
    assert f * (1.0 - lo) == f - f * lo;
    assert k * (1.0 - up) == k - k * up;
  }

  /**
   * With a non-negative forward F and strike K, Vc lies in [-K, F] and Vp in
   * [-F, K].
   */
  lemma ValueBounds(snd: real -> real, s0: real, k: real, sigma: real, miu: real, t: real,
                    ln: real -> real, sqrt: real -> real)
    requires s0 != 0.0 && sigma != 0.0 && sqrt(t) != 0.0
    requires Distribution(snd) && Forward(s0, miu, t) >= 0.0 && k >= 0.0
    ensures -k <= CallWith(snd, s0, k, sigma, miu, t, ln, sqrt) <= Forward(s0, miu, t)
    ensures -Forward(s0, miu, t) <= PutWith(snd, s0, k, sigma, miu, t, ln, sqrt) <= k
  {
    var a, b := Lower(s0, k, sigma, miu, t, ln, sqrt), Upper(s0, k, sigma, miu, t, ln, sqrt);
    assert 0.0 <= snd(a) <= 1.0 && 0.0 <= snd(b) <= 1.0;
    BoundsFromRange(snd, s0, k, sigma, miu, t, ln, sqrt);
  }

  /** ValueBounds needs of snd only that its two values lie in [0, 1]. */
  lemma BoundsFromRange(snd: real -> real, s0: real, k: real, sigma: real, miu: real, t: real,
                        ln: real -> real, sqrt: real -> real)
    requires s0 != 0.0 && sigma != 0.0 && sqrt(t) != 0.0
    requires 0.0 <= snd(Lower(s0, k, sigma, miu, t, ln, sqrt)) <= 1.0
    requires 0.0 <= snd(Upper(s0, k, sigma, miu, t, ln, sqrt)) <= 1.0
    requires Forward(s0, miu, t) >= 0.0 && k >= 0.0
    ensures -k <= CallWith(snd, s0, k, sigma, miu, t, ln, sqrt) <= Forward(s0, miu, t)
    ensures -Forward(s0, miu, t) <= PutWith(snd, s0, k, sigma, miu, t, ln, sqrt) <= k
  {
    var f := Forward(s0, miu, t);
    var lo := snd(Lower(s0, k, sigma, miu, t, ln, sqrt));
    var up := snd(Upper(s0, k, sigma, miu, t, ln, sqrt));
    WeightedDifferenceBounds(f, k, 1.0 - lo, 1.0 - up);
    WeightedDifferenceBounds(k, f, up, lo);
  }

  /** a p - b q lies in [-b, a] when a, b >= 0 and p, q are in [0, 1]. */
  lemma WeightedDifferenceBounds(a: real, b: real, p: real, q: real)
    requires a >= 0.0 && b >= 0.0 && 0.0 <= p <= 1.0 && 0.0 <= q <= 1.0
    ensures -b <= a * p - b * q <= a
  {
    MulNonNegative(a, p);
    MulNonNegative(a, 1.0 - p);
    MulNonNegative(b, q);
    MulNonNegative(b, 1.0 - q);
    assert a * (1.0 - p) == a - a * p;
    assert b * (1.0 - q) == b - b * q;
  }

  /**
   * By symmetry Vc is F snd(-lower) - K snd(-upper): the shape of the
   * undiscounted Black-Scholes call F N(d1) - K N(d2), with the source's
   * linear forward F = S0 (1 + miu T) and its own d1 in the arguments.
   */
  lemma CallInTextbookForm(snd: real -> real, s0: real, k: real, sigma: real, miu: real, t: real,
                           ln: real -> real, sqrt: real -> real)
    requires s0 != 0.0 && sigma != 0.0 && sqrt(t) != 0.0 && Distribution(snd)
    ensures CallWith(snd, s0, k, sigma, miu, t, ln, sqrt)
         == Forward(s0, miu, t) * snd(-Lower(s0, k, sigma, miu, t, ln, sqrt))
            - k * snd(-Upper(s0, k, sigma, miu, t, ln, sqrt))
  {
    var a, b := Lower(s0, k, sigma, miu, t, ln, sqrt), Upper(s0, k, sigma, miu, t, ln, sqrt);
    assert snd(a) + snd(-a) == 1.0 && snd(b) + snd(-b) == 1.0;
    CallFromComplements(snd, s0, k, sigma, miu, t, ln, sqrt);
  }

  /** CallInTextbookForm from the two instances of symmetry it needs. */
  lemma CallFromComplements(snd: real -> real, s0: real, k: real, sigma: real, miu: real, t: real,
                            ln: real -> real, sqrt: real -> real)
    requires s0 != 0.0 && sigma != 0.0 && sqrt(t) != 0.0
    requires snd(Lower(s0, k, sigma, miu, t, ln, sqrt)) + snd(-Lower(s0, k, sigma, miu, t, ln, sqrt)) == 1.0
    requires snd(Upper(s0, k, sigma, miu, t, ln, sqrt)) + snd(-Upper(s0, k, sigma, miu, t, ln, sqrt)) == 1.0
    ensures CallWith(snd, s0, k, sigma, miu, t, ln, sqrt)
         == Forward(s0, miu, t) * snd(-Lower(s0, k, sigma, miu, t, ln, sqrt))
            - k * snd(-Upper(s0, k, sigma, miu, t, ln, sqrt))
  {
    var a, b := Lower(s0, k, sigma, miu, t, ln, sqrt), Upper(s0, k, sigma, miu, t, ln, sqrt);
    Complements(Forward(s0, miu, t), k, snd(a), snd(-a), snd(b), snd(-b));
  }

  lemma Complements(f: real, k: real, p: real, p': real, q: real, q': real)
    requires p + p' == 1.0 && q + q' == 1.0
    ensures f * (1.0 - p) - k * (1.0 - q) == f * p' - k * q'
  {
    assert 1.0 - p == p' && 1.0 - q == q';
  }

  /**
   * With sigma > 0 and sqrt(T) > 0 the lower argument is below the upper one,
   * so the call is worth at least 0 when the forward is at least the strike,
   * and the put is worth at least 0 when the strike is at least the forward.
   */
  lemma ValuesNonNegative(snd: real -> real, s0: real, k: real, sigma: real, miu: real, t: real,
                          ln: real -> real, sqrt: real -> real)
    requires s0 != 0.0 && sigma > 0.0 && sqrt(t) > 0.0 && Distribution(snd)
    requires Forward(s0, miu, t) >= 0.0 && k >= 0.0
    ensures Forward(s0, miu, t) >= k ==> CallWith(snd, s0, k, sigma, miu, t, ln, sqrt) >= 0.0
    ensures k >= Forward(s0, miu, t) ==> PutWith(snd, s0, k, sigma, miu, t, ln, sqrt) >= 0.0
  {
    var a, b := Lower(s0, k, sigma, miu, t, ln, sqrt), Upper(s0, k, sigma, miu, t, ln, sqrt);
    MulPositive(sigma, sqrt(t));
    assert a <= b;
    assert 0.0 <= snd(a) <= snd(b) <= 1.0;
    NonNegativeFromOrder(snd, s0, k, sigma, miu, t, ln, sqrt);
  }

  /** ValuesNonNegative needs of snd only 0 <= snd(lower) <= snd(upper) <= 1. */
  lemma NonNegativeFromOrder(snd: real -> real, s0: real, k: real, sigma: real, miu: real, t: real,
                             ln: real -> real, sqrt: real -> real)
    requires s0 != 0.0 && sigma != 0.0 && sqrt(t) != 0.0
    requires 0.0 <= snd(Lower(s0, k, sigma, miu, t, ln, sqrt))
    requires snd(Lower(s0, k, sigma, miu, t, ln, sqrt)) <= snd(Upper(s0, k, sigma, miu, t, ln, sqrt)) <= 1.0
    requires Forward(s0, miu, t) >= 0.0 && k >= 0.0
    ensures Forward(s0, miu, t) >= k ==> CallWith(snd, s0, k, sigma, miu, t, ln, sqrt) >= 0.0
    ensures k >= Forward(s0, miu, t) ==> PutWith(snd, s0, k, sigma, miu, t, ln, sqrt) >= 0.0
  {
    var f := Forward(s0, miu, t);
    var lo := snd(Lower(s0, k, sigma, miu, t, ln, sqrt));
    var up := snd(Upper(s0, k, sigma, miu, t, ln, sqrt));
    if f >= k {
      OrderedWeights(f, k, 1.0 - lo, 1.0 - up);
    }
    if k >= f {
      OrderedWeights(k, f, up, lo);
    }
  }

  /** a p - b q >= 0 when a >= b >= 0 and p >= q >= 0. */
  lemma OrderedWeights(a: real, b: real, p: real, q: real)
    requires a >= b >= 0.0 && p >= q >= 0.0
    ensures a * p - b * q >= 0.0
  {
    MulNonNegative(a - b, p);
    MulNonNegative(b, p - q);
    assert a * p - b * q == (a - b) * p + b * (p - q);
  }

  /** Vc and Vp as the source computes them, with tableSnd: parity and bounds. */
  lemma TablePricing(s0: real, k: real, sigma: real, miu: real, t: real,
                     ln: real -> real, sqrt: real -> real)
    requires s0 != 0.0 && sigma != 0.0 && sqrt(t) != 0.0
    ensures Call(s0, k, sigma, miu, t, ln, sqrt) - Put(s0, k, sigma, miu, t, ln, sqrt)
         == Forward(s0, miu, t) - k
    ensures Forward(s0, miu, t) >= 0.0 && k >= 0.0 ==>
      && -k <= Call(s0, k, sigma, miu, t, ln, sqrt) <= Forward(s0, miu, t)
      && -Forward(s0, miu, t) <= Put(s0, k, sigma, miu, t, ln, sqrt) <= k
  {
    TableSndIsDistribution();
    PutCallParity(TableSnd, s0, k, sigma, miu, t, ln, sqrt);
    if Forward(s0, miu, t) >= 0.0 && k >= 0.0 {
      ValueBounds(TableSnd, s0, k, sigma, miu, t, ln, sqrt);
    }
  }

  /** At the money (K = S0, ln(1) = 0) d1 is (sigma / 2 - miu / sigma) T. */
  lemma D1AtTheMoney(s0: real, sigma: real, miu: real, t: real, ln: real -> real)
    requires s0 != 0.0 && sigma != 0.0 && ln(1.0) == 0.0
    ensures D1(s0, s0, sigma, miu, t, ln) == (sigma / 2.0 - miu / sigma) * t
  {
    assert s0 / s0 == 1.0;
    assert (sigma * sigma / 2.0 - miu) * t / sigma == (sigma / 2.0 - miu / sigma) * t;
  }
}
