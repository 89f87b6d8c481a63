/**
 * JavaScript numbers as the bot's handlers see them, with exact reals in place of
 * IEEE doubles: normalisation of user input (`_toNormalNumber`), rounding up to the
 * cent (`_roundUpSecondDecimal`) and the fiat-to-USDT conversion of `_startSession`.
 */
module Numbers {
  import opened Wrappers

  /** A JavaScript number: NaN, one of the infinities, or a finite value. */
  datatype JsNumber = NaN | PosInf | NegInf | Finite(value: real)

  /** Default VND price of one USDT (`VND_PRICE`). */
  const VND_PRICE: real := 25700.0

  /** Values below this are normalised to 0 by `_toNormalNumber`. */
  const NORMAL_MIN: real := 0.0001

  /** `10 ** precision` for the default precision 5 of `_toNormalNumber`. */
  const FIXED_SCALE: real := 100000.0

  /** JavaScript truthiness of a number: every number except 0 and NaN. */
  predicate Truthy(n: JsNumber) {
    match n
    case NaN => false
    case Finite(v) => v != 0.0
    case _ => true
  }

  /** JavaScript `a || b` on numbers. */
  function Or(a: JsNumber, b: JsNumber): (r: JsNumber)
    ensures Truthy(a) ==> r == a
    ensures !Truthy(a) ==> r == b
  {
    if Truthy(a) then a else b
  }

  /** JavaScript `a / b` (zero is taken as +0; finite overflow is not modelled). */
  function Divide(a: JsNumber, b: JsNumber): JsNumber {
    match (a, b)
    case (NaN, _) => NaN
    case (_, NaN) => NaN
    case (Finite(x), Finite(y)) =>
      if y != 0.0 then Finite(x / y)
      else if x == 0.0 then NaN
      else if x > 0.0 then PosInf
      else NegInf
    case (Finite(_), _) => Finite(0.0)
    case (_, Finite(y)) => if a.PosInf? == (y >= 0.0) then PosInf else NegInf
    case _ => NaN
  }

  /** `Math.ceil`. */
  function Ceil(x: real): (c: int)
    ensures x <= c as real < x + 1.0
  {
    -((-x).Floor)
  }

  /** `parseFloat(x.toFixed(5))` for x >= 0: the nearest multiple of 0.00001, ties upward. */
  function ToFixed5(x: real): (r: real)
    requires x >= 0.0
    ensures x - 0.000005 < r <= x + 0.000005
    ensures x >= NORMAL_MIN ==> r >= NORMAL_MIN
  {
    var n := (x * FIXED_SCALE + 0.5).Floor;
    assert x >= NORMAL_MIN ==> n >= 10;
    n as real / FIXED_SCALE
  }

  /**
   * `_toNormalNumber(input)` applied to `Number(input)`: null for NaN, 0 below 0.0001
   * (negative numbers and -Infinity included), otherwise the value to five decimals.
   */
  function ToNormalNumber(n: JsNumber): (r: Option<JsNumber>)
    ensures r.None? <==> n.NaN?
    ensures n.NegInf? || (n.Finite? && n.value < NORMAL_MIN) ==> r == Some(Finite(0.0))
    ensures n.PosInf? ==> r == Some(PosInf)
    ensures n.Finite? && n.value >= NORMAL_MIN ==>
              r.Some? && r.value.Finite? && r.value.value >= NORMAL_MIN
              && n.value - 0.000005 < r.value.value <= n.value + 0.000005
  {
    match n
    case NaN => None
    case NegInf => Some(Finite(0.0))
    case PosInf => Some(PosInf)
    case Finite(v) => if v < NORMAL_MIN then Some(Finite(0.0)) else Some(Finite(ToFixed5(v)))
  }

  /** A whole amount of at least 1 passes `_toNormalNumber` unchanged. */
  lemma WholeAmountsKept(k: int)
    requires k >= 1
    ensures ToNormalNumber(Finite(k as real)) == Some(Finite(k as real))
  {
    var m := k * 100000;
    assert (k as real) * FIXED_SCALE + 0.5 == m as real + 0.5;
    assert (m as real + 0.5).Floor == m;
  }

  /** The normalised input is usable (`if (userInput)`, `if (!vndValue)`). */
  predicate IsAmount(r: Option<JsNumber>) {
    r.Some? && Truthy(r.value)
  }

  /**
   * What `if (userInput)` accepts: exactly +Infinity and the finite numbers from 0.0001 up;
   * every accepted value is positive.
   */
  lemma AcceptedAmounts(n: JsNumber)
    ensures IsAmount(ToNormalNumber(n)) <==> n.PosInf? || (n.Finite? && n.value >= NORMAL_MIN)
    ensures IsAmount(ToNormalNumber(n)) ==>
              ToNormalNumber(n).value.PosInf? || ToNormalNumber(n).value.value >= NORMAL_MIN
  {
  }

  /** A whole number of cents. */
  predicate WholeCents(x: real) {
    (x * 100.0).Floor as real == x * 100.0
  }

  /** `_roundUpSecondDecimal`: round up to the next whole cent; null unless the number is finite. */
  function RoundUpSecondDecimal(n: JsNumber): (r: Option<real>)
    ensures r.Some? <==> n.Finite?
    ensures r.Some? ==> n.value <= r.value < n.value + 0.01
    ensures r.Some? ==> WholeCents(r.value)
  {
    if n.Finite? then
      var c := Ceil(n.value * 100.0);
      assert (c as real / 100.0) * 100.0 == c as real;
      Some(c as real / 100.0)
    else None
  }

  /** Rounding up never lands above a whole number of cents that is already >= the input. */
  lemma RoundUpIsLeastCent(x: real, cents: int)
    requires x <= cents as real / 100.0
    ensures RoundUpSecondDecimal(Finite(x)).value <= cents as real / 100.0
  {
    var c := Ceil(x * 100.0);
    assert x * 100.0 <= cents as real;
    assert (-(cents as real)) <= -(x * 100.0);
    assert -cents <= (-(x * 100.0)).Floor;
    assert c <= cents;
  }

  /**
   * The amount `_startSession` expects: `_roundUpSecondDecimal(Number(userInput) /
   * (this.price || VND_PRICE))`.
   */
  function ConvertedValue(userInput: JsNumber, price: JsNumber): (r: Option<real>)
    ensures r.Some? && r.value > 0.0 ==> userInput.Finite?
    ensures userInput.Finite? && userInput.value > 0.0 && price.Finite? && price.value > 0.0 ==>
              r.Some? && 0.0 < userInput.value / price.value <= r.value < userInput.value / price.value + 0.01
    ensures userInput.Finite? && price.Finite? && price.value != 0.0 ==>
              r == RoundUpSecondDecimal(Finite(userInput.value / price.value))
    ensures userInput.Finite? && !Truthy(price) ==>
              r == RoundUpSecondDecimal(Finite(userInput.value / VND_PRICE))
  {
    RoundUpSecondDecimal(Divide(userInput, Or(price, Finite(VND_PRICE))))
  }

  /** Fiat 2570000 at the default rate is exactly 100 USDT; 100 at rate 3 rounds up to 33.34. */
  lemma ConversionExamples()
    ensures ConvertedValue(Finite(2570000.0), Finite(VND_PRICE)) == Some(100.0)
    ensures ConvertedValue(Finite(2570000.0), Finite(0.0)) == Some(100.0)
    ensures ConvertedValue(Finite(100.0), Finite(3.0)) == Some(33.34)
    ensures ConvertedValue(PosInf, Finite(VND_PRICE)) == None
    ensures ConvertedValue(Finite(100.0), PosInf) == Some(0.0)
  {
    assert -3334.0 <= -(10000.0 / 3.0) < -3333.0;
    assert (-(10000.0 / 3.0)).Floor == -3334;
    assert (-(2570000.0 / VND_PRICE * 100.0)).Floor == -10000;
  }
}
