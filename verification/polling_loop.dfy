/** The foreground loop of the polling dimmer: the command check that replaces the PWM
    bounds `min_pwm`/`max_pwm` from a received `"<min> <max>"` line, the mapping of a
    10-bit ADC reading into those bounds, and the duty percentage shown on the display. */
module PollingLoop {
  import opened BoundedInts
  import opened Wrappers
  import UartReceiver

  datatype Bounds = Bounds(min: uint8, max: uint8)

  /** The bounds invariant of the loop: the lower bound lies strictly below the upper. */
  predicate ValidBounds(b: Bounds) {
    b.min < b.max
  }

  /** `min_pwm = 0`, `max_pwm = 255` at reset. */
  const InitialBounds: Bounds := Bounds(0, 255)

  /** A `"%u %u"` match whose values both fit a byte and are strictly ordered. */
  predicate Acceptable(parsed: Option<(nat, nat)>) {
    parsed.Some? && parsed.value.0 <= 255 && parsed.value.1 <= 255 && parsed.value.0 < parsed.value.1
  }

  /** The validation block run on a received line, given what `sscanf` made of it. */
  function ApplyCommand(b: Bounds, parsed: Option<(nat, nat)>): (b': Bounds)
    ensures ValidBounds(b) ==> ValidBounds(b')
    ensures b' != b ==> Acceptable(parsed)
    ensures Acceptable(parsed) ==> b'.min == parsed.value.0 && b'.max == parsed.value.1
  {
    if Acceptable(parsed) then Bounds(parsed.value.0, parsed.value.1) else b
  }

  /** Re-sending a command leaves the bounds where the first send put them. */
  lemma ApplyCommandIdempotent(b: Bounds, parsed: Option<(nat, nat)>)
    ensures ApplyCommand(ApplyCommand(b, parsed), parsed) == ApplyCommand(b, parsed)
  {
  }

  /** The top eight bits of a 10-bit reading (`adc_value / 4`). */
  function RawPwm(adc: Sample10): (raw: uint8)
    ensures 4 * raw <= adc < 4 * raw + 4
  {
    adc / 4
  }

  /** The evidently intended mapping of `raw` in 0..255 linearly onto `[lo, hi]`,
      rounded down, computed without overflow. */
  function ScaleToBounds(raw: uint8, lo: uint8, hi: uint8): (pwm: uint8)
    requires lo <= hi
    ensures lo <= pwm <= hi
    ensures raw == 0 ==> pwm == lo
    ensures raw == 255 ==> pwm == hi
    ensures 255 * (pwm - lo) <= raw * (hi - lo) < 255 * (pwm - lo + 1)
  {
    var span := hi - lo;
    assert 0 <= raw * span <= 255 * span;
    lo + raw * span / 255
  }

  /** A higher knob position never yields a lower duty. */
  lemma {:induction false} ScaleToBoundsMonotone(r1: uint8, r2: uint8, lo: uint8, hi: uint8)
    requires lo <= hi && r1 <= r2
    ensures ScaleToBounds(r1, lo, hi) <= ScaleToBounds(r2, lo, hi)
  {
    MulIsMonotone(r1, r2, hi - lo);
    DivIsMonotone(r1 * (hi - lo), r2 * (hi - lo), 255);
  }

  /** `min_pwm + ((raw_pwm * (max_pwm - min_pwm)) / 255)` as the AVR evaluates it: the
      product in 16-bit `int` (wrapping when it exceeds 32767), C's truncating division,
      and the sum stored into a `uint8_t`. */
  function ScaleAsWritten(raw: uint8, lo: uint8, hi: uint8): (pwm: uint8)
    ensures lo < hi ==> pwm == ScaleToBounds(raw, lo, hi) || pwm == ScaleToBounds(raw, lo, hi) - 1
    ensures lo < hi ==> lo <= pwm <= hi
  {
    TruncDivAsEuclidean(WrapInt16(raw * (hi - lo)), 255);
    ToUint8(lo + TruncDiv(WrapInt16(raw * (hi - lo)), 255))
  }

  /** While the product stays within 16-bit `int`, the code computes the intended value,
      so its result lies in the bounds and grows with the knob. */
  lemma ScaleAsWrittenWithoutOverflow(raw: uint8, lo: uint8, hi: uint8)
    requires lo <= hi && raw * (hi - lo) <= 0x7FFF
    ensures ScaleAsWritten(raw, lo, hi) == ScaleToBounds(raw, lo, hi)
    ensures lo <= ScaleAsWritten(raw, lo, hi) <= hi
  {
    var p := raw * (hi - lo);
    assert 0 <= p by {
      MulIsMonotone(0, raw, hi - lo);
    }
    var q := TruncDiv(WrapInt16(p), 255);
    assert q == p / 255;
    assert ScaleAsWritten(raw, lo, hi) == ToUint8(lo + q);
  }

  /** With the default bounds (0, 255), every knob position from 129 up overflows the
      product and the code drives one step below the intended duty. */
  lemma ScaleAsWrittenOverflows(raw: uint8)
    requires raw >= 129
    ensures ScaleToBounds(raw, 0, 255) == raw
    ensures ScaleAsWritten(raw, 0, 255) == raw - 1
  {
    var p := raw * 255;
    assert 0x8000 <= p < 0x1_0000;
    assert WrapInt16(p) == p - 0x1_0000;
    assert 0x1_0000 - p == 255 * (257 - raw) + 1;
    assert (0x1_0000 - p) / 255 == 257 - raw;
  }

  /** `(pwm_value * 100) / 255`. */
  function Percent(pwm: uint8): (p: uint8)
    ensures p <= 100
    ensures p == 100 <==> pwm == 255
    ensures p == 0 <==> pwm <= 2
    ensures 255 * p <= 100 * pwm < 255 * (p + 1)
  {
    pwm * 100 / 255
  }

  /** The state the loop shares with the receive interrupt, and the bounds. */
  datatype Dimmer = Dimmer(rx: UartReceiver.Receiver, bounds: Bounds)

  predicate Invariant(d: Dimmer) {
    UartReceiver.Valid(d.rx) && ValidBounds(d.bounds)
  }

  function Initial(): (d: Dimmer)
    ensures Invariant(d)
  {
    Dimmer(UartReceiver.Initial(), InitialBounds)
  }

  /** What one pass of the loop publishes: the reading, `raw_pwm`, the duty written to
      `OCR1A` and the percentage. */
  datatype Frame = Frame(adc: Sample10, raw: uint8, pwm: uint8, percent: uint8)

  /** One pass of the `while (1)` loop. A pending line is consumed (flag cleared, bounds
      possibly replaced), then the reading is mapped into the current bounds. */
  function Pass(d: Dimmer, parse: string -> Option<(nat, nat)>, adc: Sample10): (r: (Dimmer, Frame))
    requires Invariant(d)
    ensures Invariant(r.0)
    ensures !r.0.rx.ready
    ensures r.0.rx.buffer == d.rx.buffer && r.0.rx.index == d.rx.index
    ensures r.0.bounds != d.bounds ==>
      d.rx.ready && Acceptable(parse(UartReceiver.CString(d.rx.buffer)))
    ensures var p := parse(UartReceiver.CString(d.rx.buffer));
      d.rx.ready && Acceptable(p) ==> r.0.bounds == Bounds(p.value.0, p.value.1)
    ensures |UartReceiver.CString(d.rx.buffer)| <= UartReceiver.LastIndex
    ensures r.1.pwm == ScaleToBounds(r.1.raw, r.0.bounds.min, r.0.bounds.max)
    ensures r.1.adc == adc && 4 * r.1.raw <= adc < 4 * r.1.raw + 4
    ensures r.0.bounds.min <= r.1.pwm <= r.0.bounds.max
    ensures adc < 4 ==> r.1.pwm == r.0.bounds.min
    ensures adc >= 1020 ==> r.1.pwm == r.0.bounds.max
    ensures r.1.percent == Percent(r.1.pwm) && r.1.percent <= 100
  {
    UartReceiver.LineFitsBuffer(d.rx);
    var bounds := if d.rx.ready then ApplyCommand(d.bounds, parse(UartReceiver.CString(d.rx.buffer))) else d.bounds;
    var raw := RawPwm(adc);
    var pwm := ScaleToBounds(raw, bounds.min, bounds.max);
    (Dimmer(d.rx.(ready := false), bounds), Frame(adc, raw, pwm, Percent(pwm)))
  }

  /** The two things that can happen: the receive interrupt fires with a byte, or the
      loop completes one pass with a fresh reading. */
  datatype Event = ByteReceived(c: char) | LoopPass(adc: Sample10)

  function Step(d: Dimmer, parse: string -> Option<(nat, nat)>, e: Event): (d': Dimmer)
    requires Invariant(d)
    ensures Invariant(d')
  {
    match e
    case ByteReceived(c) => d.(rx := UartReceiver.Receive(d.rx, c))
    case LoopPass(adc) => Pass(d, parse, adc).0
  }

  /** Any interleaving of interrupts and loop passes, each taken as atomic. */
  function Run(d: Dimmer, parse: string -> Option<(nat, nat)>, events: seq<Event>): (d': Dimmer)
    requires Invariant(d)
    ensures Invariant(d')
    decreases |events|
  {
    if |events| == 0 then d else Run(Step(d, parse, events[0]), parse, events[1..])
  }

  /** `min_pwm < max_pwm` and the receiver's bounds hold in every reachable state. */
  lemma InvariantReachable(parse: string -> Option<(nat, nat)>, events: seq<Event>)
    ensures Invariant(Run(Initial(), parse, events))
    ensures Run(Initial(), parse, events).bounds.min < Run(Initial(), parse, events).bounds.max
  {
  }

  /** Bytes alone never move the bounds: only a loop pass that consumes a line with an
      acceptable pair does. */
  lemma {:induction false} BytesLeaveBounds(d: Dimmer, parse: string -> Option<(nat, nat)>, bytes: seq<char>)
    requires Invariant(d)
    ensures Run(d, parse, seq(|bytes|, k requires 0 <= k < |bytes| => ByteReceived(bytes[k]))).bounds == d.bounds
    decreases |bytes|
  {
    var events := seq(|bytes|, k requires 0 <= k < |bytes| => ByteReceived(bytes[k]));
    if |bytes| > 0 {
      var d1 := Step(d, parse, events[0]);
      assert events[1..] == seq(|bytes[1..]|, k requires 0 <= k < |bytes[1..]| => ByteReceived(bytes[1..][k]));
      BytesLeaveBounds(d1, parse, bytes[1..]);
    }
  }
}
