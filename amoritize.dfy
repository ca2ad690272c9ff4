/** The amortization engine of `amoritize.py`: the level payment, the split of
    each month's payment into interest and principal, the final-month
    correction, and the `Amoritize` object whose `Schedule` runs the loop.
    Every amount is a whole number of cents. */
module Amortization {
  import opened Money
  import opened Annuity

  /** The Decimal signal raised when the payment formula divides by zero. */
  datatype PmtError =
    | DivisionUndefined  // 0 / 0 (InvalidOperation): the monthly rate is zero
    | DivisionByZero     // x / 0 with x non-zero: the payment count is zero

  datatype Result<T> = Success(value: T) | Failure(error: PmtError)

  /** One month of the schedule, in cents. */
  datatype Payment = Payment(payment: int, interest: int, principalPaid: int, presentValue: int)

  /** What `schedule` returns: the months in order and the interest accumulated. */
  datatype Response = Response(payments: seq<Payment>, totalInterest: int)

  /** `calculate_pmt`: the level payment for a principal of `pv` cents, rounded
      to the nearest cent; the formula's division fails when its denominator
      `1 - (1 + mpr) ** -n` is zero, which is exactly when `mpr` or `n` is zero. */
  function CalculatePmt(pv: int, mpr: real, n: int): (r: Result<int>)
    requires mpr > -1.0
    ensures r.Failure? <==> mpr == 0.0 || n == 0
    ensures r == Failure(DivisionUndefined) <==> mpr == 0.0
    ensures r.Success? ==>
      -0.5 <= r.value as real - 100.0 * LevelPayment(Dollars(pv), mpr, n) <= 0.5
    ensures r.Success? && (r.value as real - 100.0 * LevelPayment(Dollars(pv), mpr, n) == 0.5
                           || r.value as real - 100.0 * LevelPayment(Dollars(pv), mpr, n) == -0.5)
            ==> r.value % 2 == 0
  {
    if Denominator(mpr, n) == 0.0 then
      if mpr == 0.0 then Failure(DivisionUndefined) else Failure(DivisionByZero)
    else
      Success(Quantize(LevelPayment(Dollars(pv), mpr, n)))
  }

  /** `calculate_interest_due`: the balance times the monthly rate, to the nearest
      cent (ties to even). */
  function InterestDue(pv: int, mpr: real): (interest: int)
    ensures -0.5 <= interest as real - pv as real * mpr <= 0.5
    ensures interest as real - pv as real * mpr == 0.5 || interest as real - pv as real * mpr == -0.5
            ==> interest % 2 == 0
  {
    var exact := Dollars(pv) * mpr;
    assert 100.0 * exact == pv as real * mpr by {
      calc {
        100.0 * exact;
        100.0 * (Dollars(pv) * mpr);
        (100.0 * Dollars(pv)) * mpr;
        pv as real * mpr;
      }
    }
    Quantize(exact)
  }

  /** `calculate_principal_paid`: payment minus interest, quantized; both are whole
      cents already, so the rounding is exact. */
  function PrincipalPaid(pmt: int, interest: int): (principal: int)
    ensures principal == pmt - interest
  {
    QuantizeWholeCents(pmt - interest);
    Quantize(Dollars(pmt - interest))
  }

  /** `calculate_new_balance`: the balance minus the principal paid, quantized;
      exact for the same reason. */
  function NewBalance(pv: int, principalPaid: int): (balance: int)
    ensures balance == pv - principalPaid
  {
    QuantizeWholeCents(pv - principalPaid);
    Quantize(Dollars(pv - principalPaid))
  }

  /** The balance a month leaves before any final-month correction. */
  function Residual(pv: int, mpr: real, pmt: int): (balance: int)
    ensures balance == pv + InterestDue(pv, mpr) - pmt
  {
    NewBalance(pv, PrincipalPaid(pmt, InterestDue(pv, mpr)))
  }

  /** One pass of the loop of `schedule` from balance `pv` with payment `pmt`;
      `last` is the pass with `count == 1`. */
  function Period(pv: int, mpr: real, pmt: int, last: bool): (p: Payment)
    ensures p.interest == InterestDue(pv, mpr)
    ensures p.payment == p.interest + p.principalPaid
    ensures p.presentValue == pv - p.principalPaid
    ensures last && Residual(pv, mpr, pmt) > 0 ==>
      p.payment == pmt + Residual(pv, mpr, pmt) && p.presentValue == 0
    ensures !(last && Residual(pv, mpr, pmt) > 0) ==>
      p.payment == pmt && p.presentValue == Residual(pv, mpr, pmt)
  {
    var interest := InterestDue(pv, mpr);
    var principal := PrincipalPaid(pmt, interest);
    var balance := NewBalance(pv, principal);
    if last && balance > 0 then
      var corrected := pmt + balance;
      var principal' := PrincipalPaid(corrected, interest);
      Payment(corrected, interest, principal', NewBalance(pv, principal'))
    else
      Payment(pmt, interest, principal, balance)
  }

  /** The records the loop of `schedule` emits while `count` runs down from
      `count` to 1, starting from balance `pv`, with level payment `pmt`. */
  function Run(pv: int, mpr: real, pmt: int, count: int): seq<Payment>
    decreases count
  {
    if count <= 0 then []
    else
      var p := Period(pv, mpr, pmt, count == 1);
      [p] + Run(p.presentValue, mpr, pmt, count - 1)
  }

  /** A pass whose interest is known: the tentative balance is the opening
      balance plus interest less the payment, and applies to the last pass only
      when it is positive. */
  lemma PeriodOf(pv: int, mpr: real, pmt: int, last: bool, interest: int)
    requires InterestDue(pv, mpr) == interest
    ensures Period(pv, mpr, pmt, last)
         == if last && pv + interest - pmt > 0 then Payment(pv + interest, interest, pv, 0)
            else Payment(pmt, interest, pmt - interest, pv + interest - pmt)
  {
  }

  /** A run of `count > 0` months is its first pass followed by the run from the
      balance that pass leaves. */
  lemma RunUnfold(pv: int, mpr: real, pmt: int, count: int, month: Payment, next: int, rest: seq<Payment>)
    requires count > 0 && month == Period(pv, mpr, pmt, count == 1) && next == month.presentValue
    requires rest == Run(next, mpr, pmt, count - 1)
    ensures Run(pv, mpr, pmt, count) == [month] + rest
  {
  }

  /** One more pass of the loop extends the records emitted so far by the first
      month of the rest of the run, and leaves the rest from that month's balance. */
  lemma RunStep(pv0: int, mpr: real, pmt: int, n: int, done: seq<Payment>, pv: int, count: int,
                month: Payment, done': seq<Payment>, pv': int)
    requires count > 0
    requires done + Run(pv, mpr, pmt, count) == Run(pv0, mpr, pmt, n)
    requires month == Period(pv, mpr, pmt, count == 1)
    requires done' == done + [month] && pv' == month.presentValue
    ensures done' + Run(pv', mpr, pmt, count - 1) == Run(pv0, mpr, pmt, n)
  {
    var rest := Run(pv', mpr, pmt, count - 1);
    RunUnfold(pv, mpr, pmt, count, month, pv', rest);
    AppendAssociates(done, [month], rest);
  }

  /** Concatenation of sequences is associative. */
  lemma AppendAssociates<T>(a: seq<T>, b: seq<T>, c: seq<T>)
    ensures (a + b) + c == a + (b + c)
  {
  }

  /** The balance at the start of month `i` of `ps` (0-based), `pv` for the first;
      for `i == |ps|` it is the balance the schedule ends with. */
  function Opening(pv: int, ps: seq<Payment>, i: nat): int
    requires i <= |ps|
  {
    if i == 0 then pv else ps[i - 1].presentValue
  }

  /** The sum of the interest of the months in `ps`. */
  function TotalInterest(ps: seq<Payment>): (total: int)
  {
    if ps == [] then 0 else TotalInterest(ps[..|ps| - 1]) + ps[|ps| - 1].interest
  }

  /** The sum of the principal paid in the months of `ps`. */
  function TotalPrincipal(ps: seq<Payment>): int
  {
    if ps == [] then 0 else TotalPrincipal(ps[..|ps| - 1]) + ps[|ps| - 1].principalPaid
  }

  /** Month `i` of a run is one pass of the loop from the balance month `i - 1`
      left, and only the month with `count == 1` is the last pass. The run has
      `count` months (none when `count` is not positive). */
  lemma {:induction false} RunPeriods(pv: int, mpr: real, pmt: int, count: int)
    ensures |Run(pv, mpr, pmt, count)| == if count > 0 then count else 0
    ensures forall i :: 0 <= i < |Run(pv, mpr, pmt, count)| ==>
      Run(pv, mpr, pmt, count)[i]
        == Period(Opening(pv, Run(pv, mpr, pmt, count), i), mpr, pmt, i == count - 1)
    decreases count
  {
    if count > 0 {
      var ps := Run(pv, mpr, pmt, count);
      var p := Period(pv, mpr, pmt, count == 1);
      var tail := Run(p.presentValue, mpr, pmt, count - 1);
      RunPeriods(p.presentValue, mpr, pmt, count - 1);
      assert ps == [p] + tail;
      forall i | 0 < i < |ps|
        ensures ps[i] == Period(Opening(pv, ps, i), mpr, pmt, i == count - 1)
      {
        assert ps[i] == tail[i - 1];
        assert Opening(pv, ps, i) == Opening(p.presentValue, tail, i - 1);
      }
    }
  }

  /** Every month's payment is exactly its interest plus its principal paid,
      the corrected last month included. */
  lemma RunDecomposition(pv: int, mpr: real, pmt: int, count: int)
    ensures forall p :: p in Run(pv, mpr, pmt, count) ==>
      p.payment == p.interest + p.principalPaid
  {
    var ps := Run(pv, mpr, pmt, count);
    RunPeriods(pv, mpr, pmt, count);
    forall p | p in ps ensures p.payment == p.interest + p.principalPaid {
      var i :| 0 <= i < |ps| && ps[i] == p;
      assert p == Period(Opening(pv, ps, i), mpr, pmt, i == count - 1);
    }
  }

  /** Each month's interest is charged on the balance the month before left,
      and its balance is that balance minus the month's principal paid. */
  lemma RunBalanceRecurrence(pv: int, mpr: real, pmt: int, count: int)
    ensures forall i :: 0 <= i < |Run(pv, mpr, pmt, count)| ==>
      Run(pv, mpr, pmt, count)[i].interest == InterestDue(Opening(pv, Run(pv, mpr, pmt, count), i), mpr)
    ensures forall i :: 0 <= i < |Run(pv, mpr, pmt, count)| ==>
      Run(pv, mpr, pmt, count)[i].presentValue
        == Opening(pv, Run(pv, mpr, pmt, count), i) - Run(pv, mpr, pmt, count)[i].principalPaid
  {
    RunPeriods(pv, mpr, pmt, count);
  }

  /** The level payment is the payment of every month except possibly the last,
      and no month before the last is corrected: it leaves exactly the balance
      its interest and the level payment give. */
  lemma RunLevelPayment(pv: int, mpr: real, pmt: int, count: int)
    ensures forall i :: 0 <= i < |Run(pv, mpr, pmt, count)| - 1 ==>
      Run(pv, mpr, pmt, count)[i].payment == pmt
    ensures forall i :: 0 <= i < |Run(pv, mpr, pmt, count)| - 1 ==>
      Run(pv, mpr, pmt, count)[i].presentValue
        == Residual(Opening(pv, Run(pv, mpr, pmt, count), i), mpr, pmt)
  {
    RunPeriods(pv, mpr, pmt, count);
  }

  /** The final-month correction: when the last month would leave a positive
      balance, its payment grows by exactly that balance and the schedule ends at
      zero; otherwise the last month is left as it is. Either way the schedule
      never ends owing money. */
  lemma RunLastPeriod(pv: int, mpr: real, pmt: int, count: int)
    requires count > 0
    ensures |Run(pv, mpr, pmt, count)| == count
    ensures
      var ps := Run(pv, mpr, pmt, count);
      var t := Residual(Opening(pv, ps, count - 1), mpr, pmt);
      && (t > 0 ==> ps[count - 1].payment == pmt + t && ps[count - 1].presentValue == 0)
      && (t <= 0 ==> ps[count - 1].payment == pmt && ps[count - 1].presentValue == t)
      && ps[count - 1].presentValue <= 0
  {
    RunPeriods(pv, mpr, pmt, count);
  }

  /** Whenever every month's balance is the previous balance minus its principal
      paid, the principal paid in all adds up to how far the balance fell. */
  lemma {:induction false} PrincipalTelescopes(pv: int, ps: seq<Payment>)
    requires forall i :: 0 <= i < |ps| ==> ps[i].presentValue == Opening(pv, ps, i) - ps[i].principalPaid
    ensures TotalPrincipal(ps) == pv - Opening(pv, ps, |ps|)
    decreases |ps|
  {
    if ps != [] {
      var front := ps[..|ps| - 1];
      forall i | 0 <= i < |front|
        ensures front[i].presentValue == Opening(pv, front, i) - front[i].principalPaid
      {
        assert Opening(pv, front, i) == Opening(pv, ps, i);
      }
      PrincipalTelescopes(pv, front);
      assert Opening(pv, front, |front|) == Opening(pv, ps, |ps| - 1);
    }
  }

  /** A run repays its principal: what it pays off in principal is the opening
      balance less the balance it ends with, all of it when the last month was
      corrected. */
  lemma RunRepaysPrincipal(pv: int, mpr: real, pmt: int, count: int)
    ensures
      var ps := Run(pv, mpr, pmt, count);
      TotalPrincipal(ps) == pv - Opening(pv, ps, |ps|)
  {
    RunBalanceRecurrence(pv, mpr, pmt, count);
    PrincipalTelescopes(pv, Run(pv, mpr, pmt, count));
  }

  /** Interest on a larger balance is never smaller, for a rate that is not
      negative. */
  lemma InterestMonotone(a: int, b: int, mpr: real)
    requires mpr >= 0.0 && a <= b
    ensures InterestDue(a, mpr) <= InterestDue(b, mpr)
  {
    assert Dollars(a) * mpr <= Dollars(b) * mpr;
    QuantizeMonotone(Dollars(a) * mpr, Dollars(b) * mpr);
  }

  /** For a positive rate and count and a balance that is not negative, the
      rounded level payment is at least the first month's rounded interest. */
  lemma LevelAboveInterest(pv: int, mpr: real, n: int)
    requires mpr > 0.0 && n > 0 && pv >= 0
    ensures InterestDue(pv, mpr) <= CalculatePmt(pv, mpr, n).value
  {
    var level := LevelPayment(Dollars(pv), mpr, n);
    assert Dollars(pv) * mpr <= level;
    QuantizeMonotone(Dollars(pv) * mpr, level);
  }

  /** While every balance stays at most `cap` and the payment covers the
      interest on `cap`, no month raises the balance: each month's balance is at
      most the one it started from, and at most the opening balance `pv`. */
  lemma {:induction false} RunNonIncreasing(pv: int, mpr: real, pmt: int, count: int, cap: int)
    requires mpr >= 0.0 && pv <= cap && InterestDue(cap, mpr) <= pmt
    ensures forall i :: 0 <= i < |Run(pv, mpr, pmt, count)| ==>
      Run(pv, mpr, pmt, count)[i].presentValue <= Opening(pv, Run(pv, mpr, pmt, count), i)
    ensures forall i :: 0 <= i < |Run(pv, mpr, pmt, count)| ==>
      Run(pv, mpr, pmt, count)[i].presentValue <= pv
    decreases count
  {
    if count > 0 {
      var ps := Run(pv, mpr, pmt, count);
      var p := Period(pv, mpr, pmt, count == 1);
      InterestMonotone(pv, cap, mpr);
      assert p.presentValue <= pv;
      var tail := Run(p.presentValue, mpr, pmt, count - 1);
      RunNonIncreasing(p.presentValue, mpr, pmt, count - 1, cap);
      assert ps == [p] + tail;
      forall i | 0 < i < |ps|
        ensures ps[i].presentValue <= Opening(pv, ps, i) && ps[i].presentValue <= pv
      {
        assert ps[i] == tail[i - 1];
        assert Opening(pv, ps, i) == Opening(p.presentValue, tail, i - 1);
      }
    }
  }

  /** With the rounded level payment of `calculate_pmt`, a loan that is not
      negative at a positive rate never grows: no month ends above the balance
      it started from or above the loan, and a month whose payment exceeds its
      interest lowers the balance strictly. */
  lemma ScheduleNonIncreasing(pv: int, mpr: real, n: int)
    requires mpr > 0.0 && n > 0 && pv >= 0
    ensures
      var ps := Run(pv, mpr, CalculatePmt(pv, mpr, n).value, n);
      && (forall i :: 0 <= i < |ps| ==> ps[i].presentValue <= Opening(pv, ps, i))
      && (forall i :: 0 <= i < |ps| ==> ps[i].presentValue <= pv)
      && (forall i :: 0 <= i < |ps| && ps[i].payment > ps[i].interest ==>
            ps[i].presentValue < Opening(pv, ps, i))
  {
    var pmt := CalculatePmt(pv, mpr, n).value;
    LevelAboveInterest(pv, mpr, n);
    RunNonIncreasing(pv, mpr, pmt, n, pv);
    RunBalanceRecurrence(pv, mpr, pmt, n);
    RunPeriods(pv, mpr, pmt, n);
  }

  /** The interest of a month added to the end of a schedule adds to the total. */
  lemma TotalInterestAppend(ps: seq<Payment>, p: Payment)
    ensures TotalInterest(ps + [p]) == TotalInterest(ps) + p.interest
  {
    assert (ps + [p])[..|ps|] == ps;
  }

  /** Fixed input on which the schedule ends with a negative balance: a loan of
      $1.00 at a monthly rate of 1/128 (an annual rate of 0.09375, which a binary
      float holds exactly, as it does its twelfth) over two months. The level
      payment rounds up to 51 cents, the second month's interest of 0.390625 cents
      rounds to 0, and the last month repays 51 cents of a 50-cent balance; the
      correction does not apply to a negative residual, so the schedule ends at
      -1 cent. */
  lemma NegativeResidualExample()
    ensures Run(100, 0.0078125, 51, 2) == [Payment(51, 1, 50, 50)] + [Payment(51, 0, 51, -1)]
  {
    ExampleFirstMonth();
    ExampleLastMonth();
    RunUnfold(100, 0.0078125, 51, 2, Payment(51, 1, 50, 50), 50, [Payment(51, 0, 51, -1)]);
  }

  /** The example's level payment: 50.587 cents, rounded up to 51. */
  lemma ExampleLevelPayment()
    ensures CalculatePmt(100, 0.0078125, 2) == Success(51)
  {
    var mpr := 0.0078125;
    var growth := 1.01568603515625;  // (1 + mpr) ** 2
    assert Pow(1.0 + mpr, 2) == growth by {
      assert Pow(1.0 + mpr, 1) == 1.0 + mpr;
    }
    assert IntPow(1.0 + mpr, -2) == 1.0 / growth;
    var level := LevelPayment(Dollars(100), mpr, 2);
    assert level == mpr * growth / (growth - 1.0) by {
      assert Denominator(mpr, 2) == (growth - 1.0) / growth;
    }
    assert 50.58 < 100.0 * level < 50.59;
    QuantizeUnique(level, 51);
  }

  /** The example's first month: 0.78125 cents of interest on $1.00 rounds to 1. */
  lemma ExampleFirstMonth()
    ensures Period(100, 0.0078125, 51, false) == Payment(51, 1, 50, 50)
  {
    QuantizeUnique(Dollars(100) * 0.0078125, 1);
    PeriodOf(100, 0.0078125, 51, false, 1);
  }

  /** The example's last month: 0.390625 cents of interest on $0.50 rounds to 0,
      and the 51-cent payment leaves -1 cent, which is not corrected. */
  lemma ExampleLastMonth()
    ensures Run(50, 0.0078125, 51, 1) == [Payment(51, 0, 51, -1)]
  {
    QuantizeUnique(Dollars(50) * 0.0078125, 0);
    PeriodOf(50, 0.0078125, 51, true, 0);
  }

  /** The final-month correction applied to any non-zero residual, positive or
      negative, so that the last month always brings the balance to zero. */
  function SettledPeriod(pv: int, mpr: real, pmt: int, last: bool): (p: Payment)
    ensures p.interest == InterestDue(pv, mpr)
    ensures p.payment == p.interest + p.principalPaid
    ensures p.presentValue == pv - p.principalPaid
    ensures last ==> p.presentValue == 0 && p.payment == pmt + Residual(pv, mpr, pmt)
    ensures !last ==> p == Period(pv, mpr, pmt, false)
  {
    var interest := InterestDue(pv, mpr);
    var principal := PrincipalPaid(pmt, interest);
    var balance := NewBalance(pv, principal);
    if last && balance != 0 then
      var corrected := pmt + balance;
      var principal' := PrincipalPaid(corrected, interest);
      Payment(corrected, interest, principal', NewBalance(pv, principal'))
    else
      Payment(pmt, interest, principal, balance)
  }

  /** The schedule with the corrected final month. */
  function SettledRun(pv: int, mpr: real, pmt: int, count: int): (ps: seq<Payment>)
    ensures |ps| == if count > 0 then count else 0
    decreases count
  {
    if count <= 0 then []
    else
      var p := SettledPeriod(pv, mpr, pmt, count == 1);
      [p] + SettledRun(p.presentValue, mpr, pmt, count - 1)
  }

  /** Month `i` of the corrected schedule is one corrected pass from the balance
      month `i - 1` left, and the schedule has `count` months. */
  lemma {:induction false} SettledRunPeriods(pv: int, mpr: real, pmt: int, count: int)
    ensures |SettledRun(pv, mpr, pmt, count)| == if count > 0 then count else 0
    ensures forall i :: 0 <= i < |SettledRun(pv, mpr, pmt, count)| ==>
      SettledRun(pv, mpr, pmt, count)[i]
        == SettledPeriod(Opening(pv, SettledRun(pv, mpr, pmt, count), i), mpr, pmt, i == count - 1)
    decreases count
  {
    if count > 0 {
      var ps := SettledRun(pv, mpr, pmt, count);
      var p := SettledPeriod(pv, mpr, pmt, count == 1);
      var tail := SettledRun(p.presentValue, mpr, pmt, count - 1);
      SettledRunPeriods(p.presentValue, mpr, pmt, count - 1);
      assert ps == [p] + tail;
      forall i | 0 < i < |ps|
        ensures ps[i] == SettledPeriod(Opening(pv, ps, i), mpr, pmt, i == count - 1)
      {
        assert ps[i] == tail[i - 1];
        assert Opening(pv, ps, i) == Opening(p.presentValue, tail, i - 1);
      }
    }
  }

  /** The corrected schedule has `count` months, keeps every month's payment equal
      to its interest plus principal paid and its balance equal to the previous
      one less its principal paid, and always ends at a balance of exactly zero,
      whence its principal paid adds up to the whole loan. */
  lemma SettledRunEndsAtZero(pv: int, mpr: real, pmt: int, count: int)
    requires count > 0
    ensures |SettledRun(pv, mpr, pmt, count)| == count
    ensures SettledRun(pv, mpr, pmt, count)[count - 1].presentValue == 0
    ensures forall i :: 0 <= i < count ==>
      SettledRun(pv, mpr, pmt, count)[i].payment
        == SettledRun(pv, mpr, pmt, count)[i].interest + SettledRun(pv, mpr, pmt, count)[i].principalPaid
    ensures forall i :: 0 <= i < count ==>
      SettledRun(pv, mpr, pmt, count)[i].presentValue
        == Opening(pv, SettledRun(pv, mpr, pmt, count), i) - SettledRun(pv, mpr, pmt, count)[i].principalPaid
    ensures TotalPrincipal(SettledRun(pv, mpr, pmt, count)) == pv
  {
    var ps := SettledRun(pv, mpr, pmt, count);
    SettledRunPeriods(pv, mpr, pmt, count);
    PrincipalTelescopes(pv, ps);
  }

  /** The `Amoritize` object: the loan's inputs, the running balance `pv` and the
      interest accumulated by `schedule`. */
  class Amoritize {
    const bal: real     // the original loan balance, in dollars
    const apr: real     // the annual percentage rate
    const n: int        // the number of payments
    const mpr: real     // the monthly periodic rate
    var pv: int         // the present value of the loan, in cents
    var totalInterest: int  // interest accumulated by `Schedule`, in cents

    /** The monthly rate is a twelfth of the annual rate, and above -100%. */
    ghost predicate Valid()
    {
      mpr == apr / 12.0 && mpr > -1.0
    }

    /** `__init__`: rounds the balance to cents and takes a twelfth of the annual
        rate; `total_interest` starts at zero. */
    constructor (bal: real, apr: real, n: int)
      requires apr > -12.0
      ensures Valid()
      ensures this.bal == bal && this.apr == apr && this.n == n
      ensures -0.5 <= pv as real - 100.0 * bal <= 0.5 && pv == Quantize(bal)
      ensures totalInterest == 0
    {
      this.bal := bal;
      this.pv := Quantize(bal);
      this.apr := apr;
      this.n := n;
      this.mpr := apr / 12.0;
      this.totalInterest := 0;
    }

    /** `schedule`: computes the level payment once from the current balance, then
        makes `n` passes of the loop, leaving in `pv` the balance the last pass
        left and adding each month's interest to `totalInterest`. The payment
        formula's failure happens before the loop and changes nothing. */
    method Schedule() returns (r: Result<Response>)
      requires Valid()
      modifies this`pv, this`totalInterest
      ensures CalculatePmt(old(pv), mpr, n).Failure? ==>
        && r == Failure(CalculatePmt(old(pv), mpr, n).error)
        && pv == old(pv) && totalInterest == old(totalInterest)
      ensures CalculatePmt(old(pv), mpr, n).Success? ==>
        && r.Success?
        && r.value.payments == Run(old(pv), mpr, CalculatePmt(old(pv), mpr, n).value, n)
        && pv == Opening(old(pv), r.value.payments, |r.value.payments|)
        && totalInterest == old(totalInterest) + TotalInterest(r.value.payments)
        && r.value.totalInterest == totalInterest
    {
      var count := n;
      var level := CalculatePmt(pv, mpr, n);
      if level.Failure? {
        return Failure(level.error);
      }
      var pmt := level.value;
      var payments := [];
      ghost var pv0, total0 := pv, totalInterest;
      while count > 0
        invariant count <= n && (count < n ==> 0 <= count)
        invariant count > 0 ==> pmt == level.value
        invariant payments + Run(pv, mpr, level.value, count) == Run(pv0, mpr, level.value, n)
        invariant pv == Opening(pv0, payments, |payments|)
        invariant totalInterest == total0 + TotalInterest(payments)
      {
        ghost var opening := pv;
        var monthlyInterest := InterestDue(pv, mpr);
        var principalPaid := PrincipalPaid(pmt, monthlyInterest);
        var updatedBalance := NewBalance(pv, principalPaid);
        if count == 1 && updatedBalance > 0 {
          pmt := pmt + updatedBalance;
          principalPaid := PrincipalPaid(pmt, monthlyInterest);
          updatedBalance := NewBalance(pv, principalPaid);
        }
        pv := updatedBalance;
        var month := Payment(pmt, monthlyInterest, principalPaid, pv);
        assert month == Period(opening, mpr, level.value, count == 1);
        ghost var before := payments;
        TotalInterestAppend(payments, month);
        payments := payments + [month];
        totalInterest := totalInterest + monthlyInterest;
        RunStep(pv0, mpr, level.value, n, before, opening, count, month, payments, pv);
        count := count - 1;
      }
      r := Success(Response(payments, totalInterest));
    }
  }

  /** On a fresh object, a successful `Schedule` makes `n` months whose interest
      adds up to the reported total, and whose principal paid adds up to the
      rounded balance less what is left. */
  method FreshSchedule(bal: real, apr: real, n: int) returns (r: Result<Response>)
    requires apr > -12.0
    ensures r.Failure? <==> apr == 0.0 || n == 0
    ensures r.Success? ==>
      && |r.value.payments| == (if n > 0 then n else 0)
      && r.value.totalInterest == TotalInterest(r.value.payments)
      && TotalPrincipal(r.value.payments)
         == Quantize(bal) - Opening(Quantize(bal), r.value.payments, |r.value.payments|)
  {
    var loan := new Amoritize(bal, apr, n);
    r := loan.Schedule();
    if r.Success? {
      RunPeriods(Quantize(bal), loan.mpr, CalculatePmt(Quantize(bal), loan.mpr, n).value, n);
      RunRepaysPrincipal(Quantize(bal), loan.mpr, CalculatePmt(Quantize(bal), loan.mpr, n).value, n);
    }
  }
}
