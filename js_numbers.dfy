/**
  JavaScript numbers as far as the component uses them: a finite value or NaN.
  Values are reals; IEEE rounding and the infinities are not modelled.
 */
module JsNumbers {

  datatype JsNumber = NaN | Num(value: real)

  /** `Math.min(a, b)`: NaN as soon as one operand is NaN, otherwise the smaller value. */
  function Min(a: JsNumber, b: JsNumber): (r: JsNumber)
    ensures r.NaN? <==> a.NaN? || b.NaN?
    ensures r.Num? ==> r.value <= a.value && r.value <= b.value
    ensures r.Num? ==> r.value == a.value || r.value == b.value
  {
    if a.NaN? || b.NaN? then NaN
    else if a.value <= b.value then a
    else b
  }
}
