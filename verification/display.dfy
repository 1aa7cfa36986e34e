/** The numeric part of `update_display` in the interrupt-driven dimmer: the 10-bit duty
    rescaled to 8 bits and to a percentage, the 16-cell progress bar that blinks once the
    duty has reached the upper bound, and the choice of the status line. */
module Display {
  import opened BoundedInts
  import AdcSampler

  /** Code point 0xFF, drawn as a filled cell by the display font. */
  const FullCell: char := 0xFF as char

  /** Number of cells in the bar (`bar[16]` is the NUL terminator). */
  const BarCells: nat := 16

  /** `((uint32_t)pwm_value * 255 + 511) / 1023` stored into a `uint8_t`: for a 10-bit
      duty, the 8-bit equivalent rounded to nearest. */
  function DisplayPwm(pwm: uint16): (d: uint8)
    ensures pwm <= 1023 ==> 1023 * d - 511 <= 255 * pwm <= 1023 * d + 511
  {
    ToUint8((pwm * 255 + 511) / 1023)
  }

  /** `((uint32_t)pwm_value * 100 + 511) / 1023` stored into a `uint8_t`: for a 10-bit
      duty, the percentage rounded to nearest, never above 100. */
  function DutyPercent(pwm: uint16): (p: uint8)
    ensures pwm <= 1023 ==> p <= 100
    ensures pwm <= 1023 ==> 1023 * p - 511 <= 100 * pwm <= 1023 * p + 511
  {
    ToUint8((pwm * 100 + 511) / 1023)
  }

  /** A larger duty never shows a smaller 8-bit value or percentage. */
  lemma {:induction false} DisplayMonotone(p1: uint16, p2: uint16)
    requires p1 <= p2 <= 1023
    ensures DisplayPwm(p1) <= DisplayPwm(p2)
    ensures DutyPercent(p1) <= DutyPercent(p2)
  {
    MulIsMonotone(p1, p2, 255);
    DivIsMonotone(p1 * 255 + 511, p2 * 255 + 511, 1023);
    MulIsMonotone(p1, p2, 100);
    DivIsMonotone(p1 * 100 + 511, p2 * 100 + 511, 1023);
  }

  /** `(percent * 16) / 100`: the number of filled cells, rounded down. */
  function BarLength(percent: uint8): (n: uint8)
    ensures 100 * n <= 16 * percent < 100 * (n + 1)
    ensures percent <= 100 ==> n <= BarCells
  {
    percent * 16 / 100
  }

  /** An empty bar at zero duty and a full one at the 10-bit TOP. */
  lemma BarLengthEnds()
    ensures BarLength(DutyPercent(0)) == 0
    ensures BarLength(DutyPercent(1023)) == BarCells
  {
  }

  /** Cells `i..15` of the bar as the `for` loop writes them: filled below `barLength`
      unless the blank phase of the blink is on, space from `barLength` on. */
  function BarFrom(i: nat, barLength: uint8, blank: bool): (cells: seq<char>)
    requires i <= BarCells
    ensures |cells| == BarCells - i
    ensures forall k :: 0 <= k < |cells| && i + k >= barLength ==> cells[k] == ' '
    ensures forall k :: 0 <= k < |cells| && i + k < barLength ==>
      cells[k] == if blank then ' ' else FullCell
    decreases BarCells - i
  {
    if i == BarCells then []
    else [if i < barLength then (if blank then ' ' else FullCell) else ' '] + BarFrom(i + 1, barLength, blank)
  }

  /** The status line on row 6: a fixed prompt while new values await the button,
      otherwise the current limits. */
  datatype Status = PressButtonPrompt | Limits(min: uint8, max: uint8)

  function StatusLine(newVals: uint8, minPwm: uint8, maxPwm: uint8): (s: Status)
    ensures s.PressButtonPrompt? <==> newVals != 0
    ensures s.Limits? ==> s.min == minPwm && s.max == maxPwm
  {
    if newVals != 0 then PressButtonPrompt else Limits(minPwm, maxPwm)
  }

  /** The `static` toggle starts at 0: the first call shows the bar filled. */
  const InitialBlink: bool := false

  /** What one call puts on the display. */
  datatype Frame = Frame(displayPwm: uint8, percent: uint8, status: Status, bar: seq<char>)

  /** One call of `update_display`; `blink` is the function's `static` toggle, passed in
      and returned flipped. */
  function UpdateDisplay(pwm: uint16, minPwm: uint8, maxPwm: uint8, newVals: uint8, blink: bool): (r: (Frame, bool))
    ensures r.1 == !blink
    ensures r.0.displayPwm == DisplayPwm(pwm) && r.0.percent == DutyPercent(pwm)
    ensures |r.0.bar| == BarCells + 1 && r.0.bar[BarCells] == Nul
    ensures forall i :: 0 <= i < BarCells && i >= BarLength(r.0.percent) ==> r.0.bar[i] == ' '
    ensures forall i :: 0 <= i < BarCells && i < BarLength(r.0.percent) ==>
      r.0.bar[i] == if r.0.displayPwm >= maxPwm && blink then ' ' else FullCell
    ensures pwm <= 1023 ==> r.0.percent <= 100 && BarLength(r.0.percent) <= BarCells
    ensures r.0.status.PressButtonPrompt? <==> newVals != 0
    ensures newVals == 0 ==> r.0.status == Limits(minPwm, maxPwm)
  {
    var displayPwm := DisplayPwm(pwm);
    var percent := DutyPercent(pwm);
    var blank := displayPwm >= maxPwm && blink;
    var bar := BarFrom(0, BarLength(percent), blank) + [Nul];
    (Frame(displayPwm, percent, StatusLine(newVals, minPwm, maxPwm), bar), !blink)
  }

  function Repeat(c: char, n: nat): (s: seq<char>)
    ensures |s| == n && forall k :: 0 <= k < n ==> s[k] == c
  {
    seq(n, _ => c)
  }

  /** Below the upper bound the bar is a run of filled cells followed by spaces, the same
      in both phases of the blink. */
  lemma BarBelowMax(pwm: uint16, minPwm: uint8, maxPwm: uint8, newVals: uint8, blink: bool)
    requires DisplayPwm(pwm) < maxPwm
    ensures var n := Min(BarLength(DutyPercent(pwm)), BarCells);
      UpdateDisplay(pwm, minPwm, maxPwm, newVals, blink).0.bar
        == Repeat(FullCell, n) + Repeat(' ', BarCells - n) + [Nul]
  {
    var bar := UpdateDisplay(pwm, minPwm, maxPwm, newVals, blink).0.bar;
    var n := Min(BarLength(DutyPercent(pwm)), BarCells);
    var shape := Repeat(FullCell, n) + Repeat(' ', BarCells - n) + [Nul];
    assert |bar| == |shape|;
    forall i | 0 <= i < |bar| ensures bar[i] == shape[i] {
      if i < n {
        assert shape[i] == FullCell;
      } else if i < BarCells {
        assert shape[i] == Repeat(' ', BarCells - n)[i - n];
      }
    }
  }

  /** At or above the upper bound, two consecutive calls show a filled bar and a blank
      one, in the order set by the toggle. */
  lemma BlinkAlternatesAtMax(pwm: uint16, minPwm: uint8, maxPwm: uint8, newVals: uint8, blink: bool)
    requires DisplayPwm(pwm) >= maxPwm && BarLength(DutyPercent(pwm)) > 0
    ensures var first := UpdateDisplay(pwm, minPwm, maxPwm, newVals, blink);
      var second := UpdateDisplay(pwm, minPwm, maxPwm, newVals, first.1);
      var blanked := if blink then first.0.bar else second.0.bar;
      var filled := if blink then second.0.bar else first.0.bar;
      && second.1 == blink
      && first.0.bar[0] != second.0.bar[0]
      && (forall i :: 0 <= i < BarCells ==> blanked[i] == ' ')
      && (forall i :: 0 <= i < Min(BarLength(DutyPercent(pwm)), BarCells) ==> filled[i] == FullCell)
  {
    var on := UpdateDisplay(pwm, minPwm, maxPwm, newVals, true).0.bar;
    var off := UpdateDisplay(pwm, minPwm, maxPwm, newVals, false).0.bar;
    var n := Min(BarLength(DutyPercent(pwm)), BarCells);
    assert forall i :: 0 <= i < BarCells ==> on[i] == ' ';
    assert forall i :: 0 <= i < n ==> off[i] == FullCell;
  }

  /** The first call after reset shows a filled bar even at or above the upper bound. */
  lemma FirstCallShowsFilledBar(pwm: uint16, minPwm: uint8, maxPwm: uint8, newVals: uint8)
    requires BarLength(DutyPercent(pwm)) > 0
    ensures UpdateDisplay(pwm, minPwm, maxPwm, newVals, InitialBlink).0.bar[0] == FullCell
    ensures forall i :: 0 <= i < Min(BarLength(DutyPercent(pwm)), BarCells) ==>
      UpdateDisplay(pwm, minPwm, maxPwm, newVals, InitialBlink).0.bar[i] == FullCell
    ensures UpdateDisplay(pwm, minPwm, maxPwm, newVals, InitialBlink).1
  {
  }

  /** Rescaling an 8-bit bound to 10 bits and back gives the bound again. */
  lemma RoundTrip(b: uint8)
    ensures DisplayPwm(AdcSampler.ScaleBound(b)) == b
  {
    var s: int := AdcSampler.ScaleBound(b);
    var x: int := s * 255 + 511;
    assert 1023 * b <= x < 1023 * (b + 1);
  }

  /** Whatever the bounds, the duty the sampler publishes never shows above `max_pwm`,
      and a knob at or past the scaled maximum shows exactly `max_pwm`, which is when the
      bar starts to blink. */
  lemma ClampedDisplayReachesMax(adc: uint16, minPwm: uint8, maxPwm: uint8)
    ensures DisplayPwm(AdcSampler.OnConversion(adc, minPwm, maxPwm).pwmValue) <= maxPwm
    ensures adc >= AdcSampler.ScaleBound(maxPwm) ==>
      DisplayPwm(AdcSampler.OnConversion(adc, minPwm, maxPwm).pwmValue) == maxPwm
  {
    var duty := AdcSampler.OnConversion(adc, minPwm, maxPwm).pwmValue;
    var top := AdcSampler.ScaleBound(maxPwm);
    DisplayMonotone(duty, top);
    RoundTrip(maxPwm);
  }
}
