# Loan amortization engine (`Amoritize`), modelled in Dafny

The repository computes a fixed-rate loan amortization schedule. An `Amoritize`
object holds the loan balance, the annual rate and the number of monthly
payments. `schedule()` computes the level payment once with the annuity
formula. It then makes `n` passes of a loop, one per month. Each pass computes
the month's interest on the running balance, the principal paid (payment minus
interest) and the new balance. On the last pass a positive leftover balance is
added to the payment. Every amount is rounded to cents with Python's `Decimal`.

The model keeps every amount as a whole number of cents (`int`) and the monthly
rate as an exact `real`. It has three modules:

- `Money` (`money.dfy`): `Dollars` gives the value of a cent amount. `Quantize`
  is `quantize(Decimal('0.00'))`. It rounds to the nearest cent, and a value
  exactly half-way goes to the even cent: this is `ROUND_HALF_EVEN`, the default
  of Python's decimal context.
- `Annuity` (`annuity.dfy`): the exact arithmetic of the payment formula
  `pv * (mpr / (1 - (1 + mpr) ** -n))`. It also has the unrounded balance after
  `k` months of a payment, and a proof that the formula's payment brings that
  balance to exactly zero after `n` months.
- `Amortization` (`amoritize.dfy`): the `calculate_*` helpers as functions, and
  one pass of the loop as `Period`. `Run` is the whole sequence of passes, with
  lemmas for the properties of the schedule. The class `Amoritize` has the
  source's fields. Its method `Schedule` runs the source's `while count > 0` loop
  and is proved equal to `Run`: new balance, accumulated interest and records.

The level payment is a parameter of `Run` and `Period`. So most schedule
lemmas hold for any payment, not only the one `calculate_pmt` gives.
`ScheduleNonIncreasing` ties them to the rounded payment. For a loan that is not
negative at a positive rate, that payment covers every month's interest, so the
balance never rises.

Two conventions common in loan calculators are not what the code does, and
the model follows the code:

- Rounding is half-to-even (the decimal default), not half-away-from-zero.
- A zero monthly rate is not given a fallback formula (such as `pv / n`). The division in
  `calculate_pmt` fails: `0 / 0` raises `InvalidOperation` (`DivisionUndefined`).
  With `n == 0` and a non-zero rate it raises `DivisionByZero`.
  `CalculatePmt` returns these as errors, and `Schedule` returns the error
  without changing the object.
- The constructor does not validate its inputs. A count `n <= 0` other than 0
  gives an empty schedule. A balance of any sign is accepted.
- The final balance is not always zero. The correction handles only a positive
  leftover, so a schedule can end below zero (see "## Findings").
- This copy of the engine has no dates and no total cost.

## Model

| member | source | states |
|---|---|---|
| `Money.Quantize` | amoritize.py:47 | the result is the nearest whole cent to the value, and a half-way value goes to the even cent |
| `Money.QuantizeUnique` | amoritize.py:47 | the nearest cent with ties to even is unique, and it is what `Quantize` returns |
| `Money.QuantizeMonotone` | amoritize.py:47 | rounding to cents keeps the order of two values: `x <= y` gives `Quantize(x) <= Quantize(y)` |
| `Money.QuantizeWholeCents` | amoritize.py:69 | quantizing an amount that is already whole cents returns it unchanged |
| `Annuity.Pow` | amoritize.py:57 | `b ** k` for a natural `k` is positive for a positive base, is 1 for base 1, and is above 1 (below 1) for a base above 1 (between 0 and 1) and `k > 0` |
| `Annuity.IntPow` | amoritize.py:57 | `(1 + mpr) ** k` is positive, it equals 1 exactly when the base is 1 or `k == 0`, and it is below 1 for a base above 1 and `k < 0` |
| `Annuity.Denominator` | amoritize.py:57 | `1 - (1 + mpr) ** -n` is zero exactly when `mpr == 0` or `n == 0`, and lies strictly between 0 and 1 when `mpr > 0` and `n > 0` |
| `Annuity.LevelPayment` | amoritize.py:57 | the exact payment times the denominator is one month's interest on the principal, `pv * mpr`; for a principal that is not negative, `mpr > 0` and `n > 0` the payment is at least that interest |
| `Annuity.ExactBalanceClosedForm` | amoritize.py:57 | unrounded balance after `k` months: `mpr * B_k == mpr * pv * (1+mpr)^k - pmt * ((1+mpr)^k - 1)` |
| `Annuity.LevelPaymentAmortizes` | amoritize.py:57 | paying the formula's exact payment `n` times leaves an unrounded balance of exactly zero |
| `Amortization.CalculatePmt` | amoritize.py:53-57 | fails exactly when `mpr == 0` (0/0) or `n == 0` (x/0); otherwise returns the exact level payment rounded to the nearest cent, ties to even |
| `Amortization.InterestDue` | amoritize.py:59-63 | the interest is balance times rate, rounded to the nearest cent, ties to even |
| `Amortization.PrincipalPaid` | amoritize.py:65-69 | the principal paid is exactly payment minus interest, because the rounding changes nothing |
| `Amortization.NewBalance` | amoritize.py:71-75 | the new balance is exactly the balance minus the principal paid |
| `Amortization.Residual` | amoritize.py:91-94 | the balance a pass would leave before any correction is balance plus interest minus payment |
| `Amortization.Run` | amoritize.py:90-121 | the records of the `while count > 0` loop, one pass per month; it carries no contract of its own, and `RunPeriods` and the lemmas below state what it computes |
| `Amortization.TotalInterest` | amoritize.py:118 | the sum of the records' interest, as `total_interest` accumulates it; no contract of its own, `TotalInterestAppend` and `Schedule` state its use |
| `Amortization.Period` | amoritize.py:91-104 | one pass: payment equals interest plus principal, and the new balance is the old one minus principal; only on the last pass with a positive residual, the payment grows by that residual and the balance becomes 0 |
| `Amortization.RunPeriods` | amoritize.py:83-121 | the loop makes exactly `n` records (none for `n <= 0`); record `i` is one pass from the balance record `i-1` left, and only the `count == 1` pass gets the correction |
| `Amortization.RunDecomposition` | amoritize.py:92-100 | every record, the corrected last one included, has `payment == interest + principal_paid` |
| `Amortization.RunBalanceRecurrence` | amoritize.py:91-111 | each record's interest is charged on the previous record's `present_value`, and its `present_value` is that balance minus its principal paid |
| `Amortization.RunLevelPayment` | amoritize.py:84-98 | every record but the last pays the level payment and is left uncorrected |
| `Amortization.RunLastPeriod` | amoritize.py:97-101 | last record: a positive residual is added to the payment and the balance ends at 0; a zero or negative residual is left as it is; the final balance is never positive |
| `Amortization.PrincipalTelescopes` | amoritize.py:75 | when each balance is the previous one minus principal paid, the principal paid sums to the drop in balance |
| `Amortization.RunRepaysPrincipal` | amoritize.py:75-104 | the principal paid over the schedule sums to the starting balance minus the final balance |
| `Amortization.InterestMonotone` | amoritize.py:59-63 | at a rate that is not negative, the rounded interest on a larger balance is never smaller |
| `Amortization.LevelAboveInterest` | amoritize.py:53-63 | for a balance that is not negative, `mpr > 0` and `n > 0`, the rounded level payment is at least the rounded interest on the balance |
| `Amortization.RunNonIncreasing` | amoritize.py:90-111 | when the payment covers the interest on a cap at or above the opening balance, every record's balance is at most the balance it started from, and at most the opening balance |
| `Amortization.ScheduleNonIncreasing` | amoritize.py:84-111 | with the rounded level payment, a loan that is not negative at `mpr > 0` and `n > 0` never grows: every record's balance is at most its opening balance and at most the loan, and falls strictly whenever the payment exceeds the interest |
| `Amortization.TotalInterestAppend` | amoritize.py:118 | adding a month adds its interest to the interest total |
| `Amortization.ExampleLevelPayment` | amoritize.py:57 | for $1.00 at monthly rate 1/128 over 2 months, the level payment is 51 cents |
| `Amortization.NegativeResidualExample` | amoritize.py:97-101 | for that loan the schedule as written is (51, 1, 50, 50), (51, 0, 51, −1): it ends one cent below zero |
| `Amortization.SettledPeriod` | amoritize.py:97-101 | a last pass that corrects any non-zero residual always ends at balance 0, and still has payment equal to interest plus principal |
| `Amortization.SettledRun` | amoritize.py:90-121 | the loop with the corrected last pass; it has exactly `count` records (none for `count <= 0`) |
| `Amortization.SettledRunEndsAtZero` | amoritize.py:90-121 | the corrected schedule has `n` records, keeps the decomposition and the balance recurrence, ends at exactly 0, and its principal sums to the loan |
| `Amortization.Amoritize.constructor` | amoritize.py:33-51 | stores the inputs, rounds the balance to the nearest cent, sets the monthly rate to `apr / 12`, and starts `total_interest` at 0 |
| `Amortization.Amoritize.Schedule` | amoritize.py:78-128 | a payment-formula failure returns the error and changes nothing; otherwise the records equal `Run` from the current balance with the rounded level payment, `pv` is the last record's balance, and `total_interest` grows by the sum of the records' interest, which is also what it returns |
| `Amortization.FreshSchedule` | amoritize.py:131-132 | on a fresh object, `schedule` fails exactly when the rate or `n` is zero; otherwise it makes `n` records, its interest total is their interest sum, and their principal sums to the rounded balance less the final balance |

## Left out

- Floats: the constructor's `Decimal(apr / 12)` divides in binary floating point before it converts. The model takes the exact rate `apr / 12`.
- Floats: the output fields are converted to `float`. The model keeps cents.
- Decimal precision: the decimal context keeps 28 significant digits, and `Decimal(apr / 12)` holds the float's full binary value (about 55 digits). So in `calculate_pmt` all five operations are rounded to 28 digits before `quantize`: the sum `1 + mpr`, the power `** -n`, the difference `1 - ...`, the quotient `mpr / ...` and the product `pv * ...`. So is the product `pv * mpr` in `calculate_interest_due`. The model computes them exactly and rounds once. The intermediate rounding can change a result only when the exact amount lies extremely close to a half-cent boundary. It can also make a very small rate look like zero.
- `quantize` raises `InvalidOperation` when the result needs more than 28 digits. Amounts of that size are not modelled.
- A monthly rate at or below −100% (`apr <= -12`) makes the power's base zero or negative. The constructor requires `apr > -12`.
- The daily rate `dpr` is never used, so it is not modelled.
- The fixture at amoritize.py:131-138 is not replayed. Its numbers depend on the float value of `0.10313 / 12` and on decimal precision. `FreshSchedule` models the same calls in general.
- The pandas DataFrame and the printing (amoritize.py:2, 140-151) are I/O.
- `total_interest` is a class attribute that a first `+=` copies onto the instance. The model makes it a field that starts at 0. `Schedule`'s contract is stated from the current `pv` and `total_interest`, so it also covers a second call on the same object.

## Findings

| source | as written | input that shows it | evidently intended | confidence | as-written member | corrected member |
|---|---|---|---|---|---|---|
| amoritize.py:97-101 | the last-pass correction runs only when `updated_balance > 0`, so a negative leftover stays | `Amoritize(1.00, 0.09375, 2)`: the monthly rate is 1/128, which a float holds exactly. The payment is 0.51. Month 1: interest 0.01, balance 0.50. Month 2: interest 0.00 (0.00390625 rounds down), principal 0.51, final `present_value` −0.01 | the correction should absorb any non-zero leftover, so the schedule ends at exactly 0.00, as the comment at line 96 says | medium; not executed | `Amortization.NegativeResidualExample` | `Amortization.SettledRunEndsAtZero` |

`Amoritize.Schedule` keeps the code's behaviour, and its lemmas describe it as
written. `RunLastPeriod` proves the final balance is never positive, but it
can be negative. `SettledPeriod` and `SettledRun` correct any non-zero leftover.
`SettledRunEndsAtZero` proves that this version ends at exactly zero and repays
the whole principal.
