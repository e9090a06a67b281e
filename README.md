# appleseed microsecond-to-duration decomposition, in Dafny

This project models `microseconds_to_time_duration` from appleseed's
`foundation/platform/datetime.h`. The function takes an unsigned 64-bit count of
microseconds and splits it into the four fields of a Boost `time_duration`:
hours, minutes, seconds and the remaining microseconds. It works by three rounds
of integer division followed by an in-place unsigned subtraction of
`quotient * divisor`: by 1 000 000, then by 60, then by 60.

- `div_arith.dfy` (module `DivArith`): Euclidean-division facts the proofs need.
  The quotient and remainder are unique. Dividing by `b` and then by `c` is the
  same as dividing once by `b * c`.
- `mixed_radix.dfy` (module `MixedRadix`): the step the source repeats for each
  unit, written once over a list of unit sizes. `Digits` divides, keeps the
  remainder as the current field and carries the quotient to the next, coarser
  unit. `Value` is the inverse: the weighted sum of the fields.
- `datetime.dfy` (module `DateTime`):
  - `TimeDuration`, the result record;
  - `TotalMicroseconds`, which reassembles a duration into microseconds;
  - `Normalized`, the bounds on minutes, seconds and the fractional field;
  - `Decompose`, the specification: the input's fields over the unit sizes
    1 000 000, 60 and 60, in the source's order;
  - `MicrosecondsToTimeDuration`, the source's straight-line body. Its locals are
    typed `UInt64` (naturals below 2^64). Dafny therefore checks that each
    subtraction neither underflows nor leaves the 64-bit range.

The function is total: any `uint64` is accepted and there is no error path.

## Model

| member | source | states |
|---|---|---|
| DateTime.MicrosecondsToTimeDuration | src/appleseed/foundation/platform/datetime.h:60-79 | Performs the divisions and in-place subtractions in the source's order on 64-bit unsigned locals. The result is `Decompose(input)`. Hours = input / 3 600 000 000. Minutes = (input / 60 000 000) % 60. Seconds = (input / 1 000 000) % 60. Fractional = input % 1 000 000. The result is normalized and reassembles to the input. |
| DateTime.Decompose | src/appleseed/foundation/platform/datetime.h:64-78 | The decomposition is lossless: `((hours*60 + minutes)*60 + seconds)*1000000 + fractional` equals the input. Minutes and seconds are below 60. The fractional field is below 1 000 000. |
| DateTime.DecomposeClosedForm | src/appleseed/foundation/platform/datetime.h:64-71 | Fractional = input % 1 000 000. Seconds = (input / 1 000 000) % 60. Minutes = (input / 60 000 000) % 60. Hours = input / 3 600 000 000. |
| DateTime.TotalIsValue | src/appleseed/foundation/platform/datetime.h:74-78 | The reassembly formula over the four fields equals their weighted sum over the unit sizes 1 000 000, 60 and 60. |
| DateTime.SubtractionStaysInRange | src/appleseed/foundation/platform/datetime.h:64-71 | Each `v -= (v / k) * k` subtracts at most `v`, so the unsigned value never underflows. What is left is `v % k`. |
| DateTime.DecomposeCharacterized | src/appleseed/foundation/platform/datetime.h:64-78 | A duration is the decomposition of `n` if and only if it is normalized and reassembles to `n`. |
| DateTime.DecomposeTotal | src/appleseed/foundation/platform/datetime.h:74-78 | Decomposing the reassembled total of a normalized duration returns that duration. This is the inverse direction of the round trip. |
| DateTime.HoursUnreduced | src/appleseed/foundation/platform/datetime.h:70-75 | Hours are the whole number of hours in the input: `hours*3600000000 <= n < (hours+1)*3600000000`. They are not reduced modulo a day or anything else. |
| DateTime.DecomposeZero | src/appleseed/foundation/platform/datetime.h:60-78 | Zero microseconds decompose to the all-zero duration. |
| DateTime.DecomposeExamples | src/appleseed/foundation/platform/datetime.h:60-79 | 61 000 000 µs is 0 h 1 min 1 s 0 µs. 3 661 500 000 µs is 1 h 1 min 1 s 500 000 µs. |
| MixedRadix.Digits | src/appleseed/foundation/platform/datetime.h:64-71 | Repeating "keep `v % k`, carry `v / k`" gives one field per unit size plus the final quotient. Every field but the last is below its unit size. |
| MixedRadix.ValueOfDigits | src/appleseed/foundation/platform/datetime.h:64-71 | The fields add back up to the number they were split from, for any list of positive unit sizes. |
| MixedRadix.DigitsOfValue | src/appleseed/foundation/platform/datetime.h:64-71 | Fields that are each below their unit size are exactly the fields of the number they add up to. |
| DivArith.DivModUnique | src/appleseed/foundation/platform/datetime.h:64-71 | If `a == d*q + r` with `r < d`, then `q` and `r` are the quotient and remainder of `a` by `d`. |
| DivArith.DivDiv | src/appleseed/foundation/platform/datetime.h:64-70 | Divisions applied in cascade (`(a / b) / c`) equal one division by `b * c`. So the source's hours equal input / 3 600 000 000. |

## Left out

- The three `to_string` specializations for `ptime`, `time_duration` and `gregorian::date` (datetime.h:81-109). They hand the value to Boost's `to_iso_string`, `time_facet` and `date_facet`, whose output is defined by library code that is not part of this model.
- The `static_cast`s to Boost's `hour_type`, `min_type`, `sec_type` and `fractional_seconds_type`, and the `time_duration` constructor's own normalisation (datetime.h:74-78). These are foreign types whose widths are not visible, so the result is modelled as unbounded naturals. The model does not capture hours that are too large for Boost's hour type, which can happen for inputs near 2^64.
- The fractional field is read as microseconds. That holds only under Boost's default microsecond resolution.
- The header guards and includes (datetime.h:30-44) are plumbing.
