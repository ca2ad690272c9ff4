/** Currency amounts are whole numbers of cents; this module gives their value
    in dollars and the rounding `quantize(Decimal('0.00'))` performs. */
module Money {

  /** The value, in dollars, of an amount held as a whole number of cents. */
  function Dollars(cents: int): real
  {
    cents as real / 100.0
  }

  /** Rounds a dollar value to a whole number of cents, as `quantize(Decimal('0.00'))`
      does under Python's default decimal context: to the nearest cent, and a value
      exactly half-way between two cents goes to the even one (ROUND_HALF_EVEN). */
  function Quantize(x: real): (cents: int)
    ensures -0.5 <= cents as real - 100.0 * x <= 0.5
    ensures cents as real - 100.0 * x == 0.5 || cents as real - 100.0 * x == -0.5 ==> cents % 2 == 0
  {
    var scaled := 100.0 * x;
    var low := scaled.Floor;
    var fraction := scaled - low as real;
    if fraction < 0.5 then low
    else if fraction > 0.5 then low + 1
    else if low % 2 == 0 then low
    else low + 1
  }

  /** The two properties of Quantize's contract single out its result: no other
      whole number of cents is as near, with ties going to the even neighbour. */
  lemma QuantizeUnique(x: real, c: int)
    requires -0.5 <= c as real - 100.0 * x <= 0.5
    requires c as real - 100.0 * x == 0.5 || c as real - 100.0 * x == -0.5 ==> c % 2 == 0
    ensures c == Quantize(x)
  {
  }

  /** Rounding to cents never reverses the order of two values. */
  lemma QuantizeMonotone(x: real, y: real)
    requires x <= y
    ensures Quantize(x) <= Quantize(y)
  {
  }

  /** Rounding an amount that already is a whole number of cents changes nothing. */
  lemma QuantizeWholeCents(c: int)
    ensures Quantize(Dollars(c)) == c
  {
    assert 100.0 * Dollars(c) == c as real;
  }
}
