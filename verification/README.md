# PWM dimmer controller — Dafny model

A model of an AVR (ATmega2560) PWM dimmer. A potentiometer is sampled by the 10-bit ADC. The
reading is turned into a Timer1 duty cycle that stays inside a user-set `[min_pwm, max_pwm]`
range, and the state is shown on an SSD1306 OLED. The repository has two variants of the
dimmer, and they are modelled as separate modules because the variants cannot be linked
together:

* **Polling variant** (`src/main.c`).
  * `UartReceiver` models the `USART0_RX_vect` interrupt. It collects bytes into a 32-byte
    line buffer, holds the write index `uart_index` and raises the flag `uart_rx_flag`.
  * `PollingLoop` models the foreground `while (1)` loop. The loop reads `"<min> <max>"`
    commands from the buffer and applies them only if `min <= 255`, `max <= 255` and
    `min < max`. It maps `adc_value / 4` linearly into the bounds and computes the duty
    percentage. `Run` takes any interleaving of receive interrupts and loop passes, treating
    each one as atomic.
* **Interrupt-driven variant** (`src/adc.c`, `src/display.c`).
  * `AdcSampler` models the `ADC_vect` interrupt. It scales both 8-bit bounds to 10 bits
    with rounding, clamps the conversion result into them and publishes the result to
    `OCR1A` and `pwm_value`.
  * `Display` models the arithmetic of `update_display`. This covers the 8-bit rescale and
    the percentage, the 16-cell progress bar with its blink-at-max rule and `static` toggle,
    and the choice of the status line.

Helper modules: `BoundedInts` (the `uint8_t`/`uint16_t` types, conversion to `uint8_t`
modulo 2^8, 16-bit `int` wrap-around and C's truncating division) and `Wrappers` (`Option`).

Facts about the code that shape the model:
* commands are `"%u %u"` pairs, and they take effect as soon as the loop reads the line;
* the bound scaling rounds with `+127`;
* the bar blinks when `display_pwm >= max_pwm`.

## Model

| member | source | states |
|---|---|---|
| UartReceiver.Initial | src/main.c:16-18 | The zero-initialised receiver has an all-NUL buffer, index 0 and no line pending, and it satisfies the receiver invariant |
| UartReceiver.Receive | src/main.c:33-43 | One received byte keeps the index at or below 31, so every store (including the NUL at line 37) is in bounds. The last cell stays NUL. Only the cell at the old index may change. A terminator NULs that cell, raises the flag and rewinds to 0. Any other byte is stored and advances the index while the index is below 31, and leaves the flag alone. At index 31 it is dropped and nothing changes |
| UartReceiver.Feed | src/main.c:33-43 | Any burst of bytes keeps the receiver invariant |
| UartReceiver.FeedWithoutTerminator | src/main.c:40-41 | Bytes without a terminator are stored in order from the current index up to cell 30, and the rest are dropped. The index ends at min(start + count, 31), the flag is unchanged and no other cell changes |
| UartReceiver.OverlongLineIsTruncated | src/main.c:40 | Forty bytes with no terminator from reset leave exactly the first 31 stored, no flag raised and the last cell still NUL |
| UartReceiver.CString | src/main.c:164 | The text `sscanf` reads is the longest NUL-free prefix of the buffer, ended by a NUL when shorter than the buffer |
| UartReceiver.LineFitsBuffer | src/main.c:16-41 | In every valid receiver state the text `sscanf` reads ends at a NUL within the first 32 cells and has at most 31 characters, so the read never leaves the array |
| UartReceiver.CrLfLeavesEmptyLine | src/main.c:36-39 | From any valid state and after any bytes, if a line ends with `\r\n` and no loop pass runs between the two bytes, the `\r` rewinds the index, the `\n` writes its NUL over cell 0, and `sscanf` sees the empty string with the flag raised |
| UartReceiver.LineDelivered | src/main.c:36-41 | A line typed from index 0 and ended by `\r` or `\n` is delivered as its first 31 bytes, with the flag raised and the index rewound |
| PollingLoop.ApplyCommand | src/main.c:164-169 | The bounds change only when the parsed pair is acceptable (both values at most 255, min < max), and then they become exactly that pair. `min_pwm < max_pwm` is preserved |
| PollingLoop.ApplyCommandIdempotent | src/main.c:164-169 | Applying the same command twice gives the same bounds as applying it once |
| PollingLoop.RawPwm | src/main.c:171-172 | `raw_pwm` holds the top eight bits of the 10-bit reading: 4·raw <= adc < 4·raw + 4 |
| PollingLoop.ScaleToBounds | src/main.c:174 | The corrected mapping lies in [min, max]. It is min at raw 0, max at raw 255, and min plus the floor of raw·(max−min)/255 in between |
| PollingLoop.ScaleToBoundsMonotone | src/main.c:174 | The corrected mapping is nondecreasing in the knob position |
| PollingLoop.ScaleAsWritten | src/main.c:174 | The expression as the AVR evaluates it: a 16-bit `int` product that wraps, which assumes two's-complement wrap since C leaves the overflow undefined, then truncating division and a store into `uint8_t`. For ordered bounds the result is the intended value or one less, so it still lies in [min, max] |
| PollingLoop.ScaleAsWrittenWithoutOverflow | src/main.c:174 | While raw·(max−min) <= 32767, the code as written equals the corrected mapping, so its result lies in [min, max] |
| PollingLoop.ScaleAsWrittenOverflows | src/main.c:174 | With bounds (0, 255) and raw >= 129, the code as written yields raw − 1 where raw is intended |
| PollingLoop.Percent | src/main.c:176 | The percentage is at most 100. It is 100 exactly at duty 255 and 0 exactly at duty 0..2, and it is the floor of duty·100/255 |
| PollingLoop.Initial | src/main.c:16-21 | The reset state (bounds 0 and 255, empty receiver) satisfies the loop invariant |
| PollingLoop.Pass | src/main.c:159-176 | One loop pass always clears the line flag and leaves the buffer and index alone. It keeps `min_pwm < max_pwm`. The bounds change exactly when a line was pending and parsed to an acceptable pair, and then they become that pair. The parsed text has at most 31 characters. The duty written to `OCR1A` is the linear mapping of `adc_value / 4` into the current bounds: min for readings below 4, max for readings of 1020 and up. The percentage is the duty's and at most 100 |
| PollingLoop.Step | src/main.c:33-176 | A receive interrupt (lines 33-43) or a loop pass (lines 159-176) preserves the invariant |
| PollingLoop.Run | src/main.c:159-188 | Any interleaving of interrupts and loop passes preserves the invariant |
| PollingLoop.InvariantReachable | src/main.c:20-21 | `min_pwm < max_pwm` and the receiver invariant hold in every state reachable from reset |
| PollingLoop.BytesLeaveBounds | src/main.c:33-43 | Receive interrupts alone never change the bounds |
| AdcSampler.ScaleBound | src/adc.c:13-14 | The scaled bound is the 8-bit bound times 1023/255, rounded to nearest. It is at most 1023, with 0 for 0 and 1023 for 255 |
| AdcSampler.ScaleBoundIncreasing | src/adc.c:13-14 | Scaling is strictly increasing, with at least 4 steps per unit, so `min_pwm < max_pwm` gives `scaled_min < scaled_max` |
| AdcSampler.Clamp | src/adc.c:17-18 | The clamped value never exceeds `scaled_max` and is at least `scaled_min` when the bounds are ordered. A reading inside the range passes through unchanged, one below it becomes `scaled_min` and one above it becomes `scaled_max`. If the bounds are crossed, the result is always `scaled_max` |
| AdcSampler.ClampIdempotent | src/adc.c:17-18 | Clamping twice equals clamping once |
| AdcSampler.ClampIsNearest | src/adc.c:17-18 | With ordered bounds, the clamped value is the point of the range nearest the reading |
| AdcSampler.ClampMonotone | src/adc.c:17-18 | The clamp is nondecreasing in the reading |
| AdcSampler.OnConversion | src/adc.c:11-22 | `OCR1A` and `pwm_value` receive the same value. It is at most `scaled_max` and so fits the 10-bit TOP of 1023, and it is at least `scaled_min` for ordered bounds. A reading inside the range is published unchanged, as is any 10-bit reading under the default bounds |
| AdcSampler.OnConversionWithinScaledBounds | src/adc.c:13-18 | For `min_pwm < max_pwm`, the scaled bounds are strictly ordered and the published value lies between them |
| Display.DisplayPwm | src/display.c:9 | For a 10-bit duty, `display_pwm` is the duty times 255/1023 rounded to nearest |
| Display.DutyPercent | src/display.c:10 | For a 10-bit duty, `percent` is the duty times 100/1023 rounded to nearest, and at most 100 |
| Display.DisplayMonotone | src/display.c:9-10 | `display_pwm` and `percent` are nondecreasing in the duty |
| Display.BarLength | src/display.c:26 | `bar_length` is the floor of percent·16/100, and at most 16 for a percentage up to 100 |
| Display.BarLengthEnds | src/display.c:10-26 | The bar length is 0 at duty 0 and 16 at duty 1023 |
| Display.BarFrom | src/display.c:28-34 | Cells at or past `bar_length` are spaces. Cells below it are 0xFF, or spaces in the blank phase |
| Display.StatusLine | src/display.c:17-21 | A nonzero `new_vals` selects the fixed prompt, and zero selects the Min/Max line with the given limits |
| Display.UpdateDisplay | src/display.c:7-36 | The bar has 16 cells and a NUL. Cells at or past `bar_length` are spaces. Cells below it are 0xFF unless `display_pwm >= max_pwm` and the toggle is on, in which case they are spaces. The toggle comes back flipped. The frame carries `display_pwm` and `percent` of the given duty. For a 10-bit duty the percentage is at most 100, and the status line follows `new_vals` |
| Display.BarBelowMax | src/display.c:28-35 | Below `max_pwm` the bar is `bar_length` filled cells, then spaces, then NUL, whatever the toggle |
| Display.BlinkAlternatesAtMax | src/display.c:24-36 | At or above `max_pwm`, two consecutive calls show an all-blank bar and a bar filled in every cell below `bar_length`, in the order the toggle gives. The toggle returns to its start |
| Display.FirstCallShowsFilledBar | src/display.c:24-36 | The toggle starts at 0, so the first call after reset shows every cell below `bar_length` filled, even at the upper bound, and leaves the toggle on |
| Display.RoundTrip | src/display.c:9 | Rescaling a bound scaled by the ADC interrupt back to 8 bits returns the bound, for every byte |
| Display.ClampedDisplayReachesMax | src/display.c:9-30 | For any bounds, even crossed ones, the duty the ADC interrupt publishes never shows above `max_pwm`. At or past the scaled maximum it shows exactly `max_pwm`, which is when the bar blinks |

## Left out

- Register setup and hardware I/O (`uart_init`, `timer1_pwm_init`, both `adc_init`s, the busy-wait in `adc_read`, `src/pwm.c`): each ADC reading is a parameter and `OCR1A` is a result.
- `sscanf`: the parser is a parameter of type `string -> Option<(nat, nat)>`, applied to the NUL-terminated line. Digit syntax and `unsigned int` overflow of the conversion are not modelled.
- `sendStrXY`, `I2C_Init`, `InitializeDisplay` and `_delay_ms`: display and I²C drivers whose source is not part of this model, and timing.
- `snprintf` text layout: only the numbers and the status-line choice are modelled, not the text of any line.
- Preemption and `volatile` races: each interrupt and each loop pass is one atomic step. A byte that arrives between clearing the flag and `sscanf` is therefore not modelled.
- The caller of `update_display` and any writer of `min_pwm`/`max_pwm` in the interrupt-driven variant are not among the source files. `OnConversion` and `UpdateDisplay` take those values as parameters.
- `src/EXAM_PREP.c` (exam notes without behaviour), the commented-out test loops in `src/main.c`, and the header files.
- `OverlongLineIsTruncated` states the 40-byte case for any 40-byte burst. Bursts of other lengths are covered by `FeedWithoutTerminator`.
- UartReceiver.Receive: takes any Dafny `char`, while `UDR0` delivers one byte. Every property holds for all characters, so it holds for the 256 byte values in particular.
- PollingLoop.Pass: uses the corrected mapping `ScaleToBounds` instead of the overflowing expression of line 174. The two agree whenever the 16-bit product does not overflow (`ScaleAsWrittenWithoutOverflow`).

## Findings

| source | as written | input that shows it | evidently intended | confidence | as-written member | corrected member |
|---|---|---|---|---|---|---|
| src/main.c:174 | `raw_pwm * (max_pwm - min_pwm)` is evaluated in 16-bit `int` and exceeds 32767 (signed overflow). With two's-complement wrap and truncating division, the duty comes out one step low | `adc_value = 1023` with the default bounds (0, 255): the product is 65025, and the duty is 254 instead of 255; every raw value from 129 up gives raw − 1 | `min_pwm + raw_pwm·(max_pwm − min_pwm)/255` computed without overflow (e.g. in `uint16_t`/`uint32_t`) | medium: not executed; the overflow is undefined behaviour in C, and the value shown assumes the wrap avr-gcc generates | PollingLoop.ScaleAsWrittenOverflows | PollingLoop.ScaleToBounds |
