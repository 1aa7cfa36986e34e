/** The ADC conversion-complete interrupt of the interrupt-driven dimmer: the 8-bit PWM
    bounds are rescaled to the 10-bit duty range and the fresh reading is clamped into
    them, then published to both `OCR1A` and the shared `pwm_value`. */
module AdcSampler {
  import opened BoundedInts

  /** `ICR1`, the TOP of Timer1's 10-bit phase-correct PWM. */
  const PwmTop: nat := 1023

  /** `((uint32_t)b * 1023 + 127) / 255`: an 8-bit bound rescaled to 10 bits, rounded
      to nearest (ties cannot occur). */
  function ScaleBound(b: uint8): (s: Sample10)
    ensures 1023 * b - 128 < 255 * s <= 1023 * b + 127
    ensures b == 0 ==> s == 0
    ensures b == 255 ==> s == 1023
  {
    (b * 1023 + 127) / 255
  }

  /** Rescaling is strictly increasing, with a gap of at least four 10-bit steps per
      8-bit step; in particular `min_pwm < max_pwm` gives `scaled_min < scaled_max`. */
  lemma ScaleBoundIncreasing(a: uint8, b: uint8)
    requires a < b
    ensures ScaleBound(a) + 4 * (b - a) <= ScaleBound(b)
  {
    var sa, sb := ScaleBound(a), ScaleBound(b);
    assert 255 * (sb - sa) > 1023 * (b - a) - 255;
    assert 1023 * (b - a) - 255 >= 255 * (4 * (b - a) - 1);
  }

  /** The two `if` statements of the interrupt, in their order: raise to `lo`, then cut
      to `hi` (so `hi` wins should the bounds ever be crossed). */
  function Clamp(adc: uint16, lo: Sample10, hi: Sample10): (r: uint16)
    ensures r <= hi
    ensures lo <= hi ==> lo <= r
    ensures lo <= adc <= hi ==> r == adc
    ensures adc < lo && lo <= hi ==> r == lo
    ensures adc > hi ==> r == hi
    ensures hi < lo ==> r == hi
  {
    var raised := if adc < lo then lo else adc;
    if raised > hi then hi else raised
  }

  /** Clamping an already clamped value changes nothing. */
  lemma ClampIdempotent(adc: uint16, lo: Sample10, hi: Sample10)
    ensures Clamp(Clamp(adc, lo, hi), lo, hi) == Clamp(adc, lo, hi)
  {
  }

  /** With ordered bounds the clamped value is the point of `[lo, hi]` nearest the reading. */
  lemma ClampIsNearest(adc: uint16, lo: Sample10, hi: Sample10, y: int)
    requires lo <= hi && lo <= y <= hi
    ensures Dist(Clamp(adc, lo, hi), adc) <= Dist(y, adc)
  {
  }

  function Dist(a: int, b: int): nat {
    if a <= b then b - a else a - b
  }

  /** A higher reading never publishes a lower duty. */
  lemma ClampMonotone(a1: uint16, a2: uint16, lo: Sample10, hi: Sample10)
    requires a1 <= a2
    ensures Clamp(a1, lo, hi) <= Clamp(a2, lo, hi)
  {
  }

  /** What the interrupt writes: the compare register and the value kept for the display. */
  datatype Published = Published(ocr1a: uint16, pwmValue: uint16)

  /** One `ADC_vect` interrupt with the conversion result `adc` and the current bounds. */
  function OnConversion(adc: uint16, minPwm: uint8, maxPwm: uint8): (out: Published)
    ensures out.ocr1a == out.pwmValue
    ensures out.pwmValue <= ScaleBound(maxPwm) <= PwmTop
    ensures minPwm <= maxPwm ==> ScaleBound(minPwm) <= out.pwmValue
    ensures ScaleBound(minPwm) <= adc <= ScaleBound(maxPwm) ==> out.pwmValue == adc
    ensures minPwm == 0 && maxPwm == 255 && adc <= 1023 ==> out.pwmValue == adc
  {
    var duty := Clamp(adc, ScaleBound(minPwm), ScaleBound(maxPwm));
    Published(duty, duty)
  }

  /** Ordered 8-bit bounds give ordered 10-bit bounds, so a conversion always lands
      inside them. */
  lemma OnConversionWithinScaledBounds(adc: uint16, minPwm: uint8, maxPwm: uint8)
    requires minPwm < maxPwm
    ensures ScaleBound(minPwm) < ScaleBound(maxPwm)
    ensures ScaleBound(minPwm) <= OnConversion(adc, minPwm, maxPwm).pwmValue <= ScaleBound(maxPwm)
  {
    ScaleBoundIncreasing(minPwm, maxPwm);
  }
}
