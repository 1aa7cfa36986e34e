/** The fixed-width unsigned integers of the AVR firmware, as subset types of `int`,
    and the explicit wrap-around that C applies when a wider value is stored into them. */
module BoundedInts {

  /** `uint8_t`: PWM bounds, `raw_pwm`, `percent`, `display_pwm`, `bar_length`. */
  type uint8 = x: int | 0 <= x < 0x100

  /** `uint16_t`: ADC readings, `pwm_value` of the interrupt-driven variant. */
  type uint16 = x: int | 0 <= x < 0x1_0000

  /** A conversion result of the 10-bit ADC (the `ADC` register never exceeds 1023). */
  type Sample10 = x: int | 0 <= x <= 1023

  /** The NUL character that terminates a C string. */
  const Nul: char := 0 as char

  /** Storing an integer into a `uint8_t` keeps it modulo 2^8 (C's unsigned conversion). */
  function ToUint8(x: int): (r: uint8)
    ensures 0 <= x < 0x100 ==> r == x
    ensures (r - x) % 0x100 == 0
  {
    x % 0x100
  }

  /** AVR's `int` is 16 bits wide; an out-of-range intermediate is taken here to wrap
      in two's complement, which is what the generated code does. */
  function WrapInt16(x: int): (r: int)
    ensures -0x8000 <= r < 0x8000
    ensures -0x8000 <= x < 0x8000 ==> r == x
    ensures (r - x) % 0x1_0000 == 0
  {
    (x + 0x8000) % 0x1_0000 - 0x8000
  }

  /** C's integer division, which truncates toward zero (unlike Dafny's Euclidean `/`). */
  function TruncDiv(a: int, d: int): (q: int)
    requires d > 0
    ensures a >= 0 ==> 0 <= a - d * q < d
    ensures a < 0 ==> -d < a - d * q <= 0
  {
    if a >= 0 then a / d else -((-a) / d)
  }

  /** The truncated quotient in terms of Dafny's Euclidean division. */
  lemma TruncDivAsEuclidean(a: int, d: int)
    requires d > 0
    ensures TruncDiv(a, d) == if a >= 0 then a / d else -((-a) / d)
  {
  }

  function Min(a: int, b: int): int {
    if a <= b then a else b
  }

  /** Products keep the order of a non-negative factor. */
  lemma MulIsMonotone(a: int, b: int, c: int)
    requires a <= b && 0 <= c
    ensures a * c <= b * c
  {
  }

  /** Division by a positive constant keeps the order of its dividends. */
  lemma DivIsMonotone(a: int, b: int, d: int)
    requires a <= b && 0 < d
    ensures a / d <= b / d
  {
    var qa, qb := a / d, b / d;
    if qb < qa {
      MulIsMonotone(qb + 1, qa, d);
    }
  }
}
