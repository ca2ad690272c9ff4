/** The exact (unrounded) arithmetic behind the level payment: powers of the
    growth factor `1 + mpr`, the annuity formula of `calculate_pmt`, and the
    balance a loan would have if that exact payment were made every month. */
module Annuity {

  /** `b` raised to a natural power. */
  function Pow(b: real, k: nat): (r: real)
    ensures b > 0.0 ==> r > 0.0
    ensures b == 1.0 ==> r == 1.0
    ensures b > 1.0 && k > 0 ==> r > 1.0
    ensures 0.0 < b < 1.0 && k > 0 ==> r < 1.0
  {
    if k == 0 then 1.0 else b * Pow(b, k - 1)
  }

  /** `b ** k` for an integer exponent, as Decimal's power operator computes it
      (exactly here): a negative exponent gives the reciprocal. */
  function IntPow(b: real, k: int): (r: real)
    requires b > 0.0
    ensures r > 0.0
    ensures r == 1.0 <==> b == 1.0 || k == 0
    ensures b > 1.0 && k < 0 ==> r < 1.0
  {
    if k >= 0 then Pow(b, k) else 1.0 / Pow(b, -k)
  }

  /** The denominator `1 - (1 + mpr) ** -n` of the annuity formula. */
  function Denominator(mpr: real, n: int): (d: real)
    requires mpr > -1.0
    ensures d == 0.0 <==> mpr == 0.0 || n == 0
    ensures mpr > 0.0 && n > 0 ==> 0.0 < d < 1.0
  {
    1.0 - IntPow(1.0 + mpr, -n)
  }

  /** The exact level payment `pv * (mpr / (1 - (1 + mpr) ** -n))` for a
      principal of `pv` dollars; defined wherever the denominator is not zero.
      The payment times the denominator is one month's interest on the
      principal, so for a positive rate and count it covers that interest. */
  function LevelPayment(pv: real, mpr: real, n: int): (pmt: real)
    requires mpr > -1.0 && mpr != 0.0 && n != 0
    ensures pmt * Denominator(mpr, n) == pv * mpr
    ensures pv >= 0.0 && mpr > 0.0 && n > 0 ==> pmt >= pv * mpr
  {
    var d := Denominator(mpr, n);
    assert pv * (mpr / d) * d == pv * mpr;
    assert mpr > 0.0 && n > 0 ==> mpr / d >= mpr by {
      assert (mpr / d) * d == mpr;
    }
    pv * (mpr / d)
  }

  /** The balance left after `k` months when every month the balance grows by
      the rate `mpr` and the exact payment `pmt` is taken off, with no rounding. */
  function ExactBalance(pv: real, mpr: real, pmt: real, k: nat): real
  {
    if k == 0 then pv else ExactBalance(pv, mpr, pmt, k - 1) * (1.0 + mpr) - pmt
  }

  /** Closed form of the exact balance:
      mpr * balance_k == mpr * pv * (1 + mpr)^k - pmt * ((1 + mpr)^k - 1). */
  lemma {:induction false} ExactBalanceClosedForm(pv: real, mpr: real, pmt: real, k: nat)
    ensures mpr * ExactBalance(pv, mpr, pmt, k)
         == mpr * pv * Pow(1.0 + mpr, k) - pmt * (Pow(1.0 + mpr, k) - 1.0)
  {
    if k > 0 {
      var e, p := ExactBalance(pv, mpr, pmt, k - 1), Pow(1.0 + mpr, k - 1);
      ExactBalanceClosedForm(pv, mpr, pmt, k - 1);
      ClosedFormStep(pv, mpr, pmt, e, p);
      assert ExactBalance(pv, mpr, pmt, k) == e * (1.0 + mpr) - pmt;
      assert Pow(1.0 + mpr, k) == (1.0 + mpr) * p;
    }
  }

  /** The algebra of one month in the closed form: if it holds for balance `e`
      and power `p`, it holds for the next balance and the next power. */
  lemma ClosedFormStep(pv: real, mpr: real, pmt: real, e: real, p: real)
    requires mpr * e == mpr * pv * p - pmt * (p - 1.0)
    ensures mpr * (e * (1.0 + mpr) - pmt)
         == mpr * pv * ((1.0 + mpr) * p) - pmt * ((1.0 + mpr) * p - 1.0)
  {
    var b := 1.0 + mpr;
    calc {
      mpr * (e * b - pmt);
      b * (mpr * e) - mpr * pmt;
      b * (mpr * pv * p - pmt * (p - 1.0)) - mpr * pmt;
      mpr * pv * (b * p) - pmt * (b * p - b + mpr);
      mpr * pv * (b * p) - pmt * (b * p - 1.0);
    }
  }

  /** The level payment of the annuity formula pays the loan off exactly: after
      `n` months of it the unrounded balance is zero. */
  lemma LevelPaymentAmortizes(pv: real, mpr: real, n: int)
    requires mpr > -1.0 && mpr != 0.0 && n > 0
    ensures ExactBalance(pv, mpr, LevelPayment(pv, mpr, n), n) == 0.0
  {
    var a := LevelPayment(pv, mpr, n);
    var p := Pow(1.0 + mpr, n);
    ExactBalanceClosedForm(pv, mpr, a, n);
    assert IntPow(1.0 + mpr, -n) == 1.0 / p;
    PaidOff(pv, mpr, a, p, ExactBalance(pv, mpr, a, n));
  }

  /** The algebra of the payoff: with `p = (1 + mpr)^n`, the payment
      `pv * (mpr / (1 - 1 / p))` cancels the closed form exactly. */
  lemma PaidOff(pv: real, mpr: real, a: real, p: real, e: real)
    requires mpr != 0.0 && p > 0.0 && p != 1.0
    requires a == pv * (mpr / (1.0 - 1.0 / p))
    requires mpr * e == mpr * pv * p - a * (p - 1.0)
    ensures e == 0.0
  {
    var d := 1.0 - 1.0 / p;
    assert d * p == p - 1.0;
    assert d != 0.0;
    assert a * d == pv * mpr;
    assert a * (p - 1.0) == mpr * pv * p by {
      calc {
        a * (p - 1.0);
        a * (d * p);
        (a * d) * p;
        pv * mpr * p;
      }
    }
    assert mpr * e == 0.0;
  }
}
