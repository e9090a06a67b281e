/** The microsecond-to-duration decomposition of appleseed's date/time helpers
    (foundation/platform/datetime.h): an unsigned 64-bit count of microseconds is
    split into hours, minutes, seconds and a sub-second remainder by three rounds
    of "divide, then subtract quotient times divisor". */
module DateTime {
  import DivArith
  import MixedRadix

  /** The source's `uint64`: naturals below 2^64. A local of this type makes
      Dafny check that every value assigned to it neither underflows nor wraps. */
  const UINT64_LIMIT: nat := 0x1_0000_0000_0000_0000
  type UInt64 = x: nat | x < UINT64_LIMIT

  const MICROSECONDS_PER_SECOND: nat := 1000000
  const SECONDS_PER_MINUTE: nat := 60
  const MINUTES_PER_HOUR: nat := 60
  const MICROSECONDS_PER_MINUTE: nat := MICROSECONDS_PER_SECOND * SECONDS_PER_MINUTE
  const MICROSECONDS_PER_HOUR: nat := MICROSECONDS_PER_MINUTE * MINUTES_PER_HOUR

  /** The divisors in the order the source applies them. */
  const UNIT_SIZES: seq<nat> := [MICROSECONDS_PER_SECOND, SECONDS_PER_MINUTE, MINUTES_PER_HOUR]

  /** The four fields handed to Boost's `time_duration` constructor. The fractional
      field is in microseconds. */
  datatype TimeDuration = TimeDuration(hours: nat, minutes: nat, seconds: nat, fractional: nat)

  /** The fields finest first, as `MixedRadix` orders them. */
  function Fields(d: TimeDuration): seq<nat>
  {
    [d.fractional, d.seconds, d.minutes, d.hours]
  }

  /** The number of microseconds a duration stands for, reassembled from its fields. */
  function TotalMicroseconds(d: TimeDuration): nat
  {
    ((d.hours * MINUTES_PER_HOUR + d.minutes) * SECONDS_PER_MINUTE + d.seconds) * MICROSECONDS_PER_SECOND
      + d.fractional
  }

  /** Every field below hours lies below the size of the next larger unit; hours are unbounded. */
  predicate Normalized(d: TimeDuration)
  {
    d.minutes < MINUTES_PER_HOUR && d.seconds < SECONDS_PER_MINUTE && d.fractional < MICROSECONDS_PER_SECOND
  }

  /** The reassembly formula is the weighted sum of the fields over the unit sizes. */
  lemma TotalIsValue(d: TimeDuration)
    ensures TotalMicroseconds(d) == MixedRadix.Value(Fields(d), UNIT_SIZES)
  {
    var f := Fields(d);
    var f1, f2, f3 := f[1..], f[1..][1..], f[1..][1..][1..];
    var u1, u2, u3 := UNIT_SIZES[1..], UNIT_SIZES[1..][1..], UNIT_SIZES[1..][1..][1..];
    assert f3 == [d.hours] && u3 == [];
    assert MixedRadix.Value(f2, u2) == d.minutes + MINUTES_PER_HOUR * d.hours;
    assert MixedRadix.Value(f1, u1) == d.seconds + SECONDS_PER_MINUTE * MixedRadix.Value(f2, u2);
  }

  /** The decomposition: the input's fields over seconds, minutes and hours.
      Nothing is lost and every field but hours is bounded. */
  function Decompose(microseconds: nat): (d: TimeDuration)
    ensures Normalized(d)
    ensures TotalMicroseconds(d) == microseconds
  {
    var digits := MixedRadix.Digits(microseconds, UNIT_SIZES);
    var d := TimeDuration(digits[3], digits[2], digits[1], digits[0]);
    assert Fields(d) == digits;
    MixedRadix.ValueOfDigits(microseconds, UNIT_SIZES);
    TotalIsValue(d);
    d
  }

  /** Each field in closed form: the whole hours in the input, and the minutes,
      seconds and microseconds left over within the next larger unit. */
  lemma DecomposeClosedForm(microseconds: nat)
    ensures Decompose(microseconds).hours == microseconds / MICROSECONDS_PER_HOUR
    ensures Decompose(microseconds).minutes == (microseconds / MICROSECONDS_PER_MINUTE) % MINUTES_PER_HOUR
    ensures Decompose(microseconds).seconds == (microseconds / MICROSECONDS_PER_SECOND) % SECONDS_PER_MINUTE
    ensures Decompose(microseconds).fractional == microseconds % MICROSECONDS_PER_SECOND
  {
    var totalSeconds := microseconds / MICROSECONDS_PER_SECOND;
    var totalMinutes := totalSeconds / SECONDS_PER_MINUTE;
    var u1, u2, u3 := UNIT_SIZES[1..], UNIT_SIZES[1..][1..], UNIT_SIZES[1..][1..][1..];
    assert u3 == [];
    assert MixedRadix.Digits(totalMinutes, u2)
        == [totalMinutes % MINUTES_PER_HOUR, totalMinutes / MINUTES_PER_HOUR];
    assert MixedRadix.Digits(totalSeconds, u1)
        == [totalSeconds % SECONDS_PER_MINUTE] + MixedRadix.Digits(totalMinutes, u2);
    assert MixedRadix.Digits(microseconds, UNIT_SIZES)
        == [microseconds % MICROSECONDS_PER_SECOND] + MixedRadix.Digits(totalSeconds, u1);
    DivArith.DivDiv(microseconds, MICROSECONDS_PER_SECOND, SECONDS_PER_MINUTE);
    DivArith.DivDiv(microseconds, MICROSECONDS_PER_MINUTE, MINUTES_PER_HOUR);
  }

  /** One round of the source's "q := v / k; v -= q * k": the subtracted product
      never exceeds `v`, so the unsigned subtraction cannot underflow, and what is
      left is the remainder of `v` by `k`. */
  lemma SubtractionStaysInRange(v: UInt64, k: nat)
    requires 0 < k
    ensures (v / k) * k <= v
    ensures v - (v / k) * k == v % k
  {
  }

  /** The decomposition as the source performs it: the locals are divided and then
      reduced in place, in the same order, each as an unsigned 64-bit value. */
  method MicrosecondsToTimeDuration(microseconds: UInt64) returns (d: TimeDuration)
    ensures d == Decompose(microseconds)
    ensures d.hours == microseconds / MICROSECONDS_PER_HOUR
    ensures d.minutes == (microseconds / MICROSECONDS_PER_MINUTE) % MINUTES_PER_HOUR
    ensures d.seconds == (microseconds / MICROSECONDS_PER_SECOND) % SECONDS_PER_MINUTE
    ensures d.fractional == microseconds % MICROSECONDS_PER_SECOND
    ensures Normalized(d) && TotalMicroseconds(d) == microseconds
  {
    var micros: UInt64 := microseconds;

    var seconds: UInt64 := micros / MICROSECONDS_PER_SECOND;
    SubtractionStaysInRange(micros, MICROSECONDS_PER_SECOND);
    micros := micros - seconds * MICROSECONDS_PER_SECOND;

    var minutes: UInt64 := seconds / SECONDS_PER_MINUTE;
    SubtractionStaysInRange(seconds, SECONDS_PER_MINUTE);
    seconds := seconds - minutes * SECONDS_PER_MINUTE;

    var hours: UInt64 := minutes / MINUTES_PER_HOUR;
    SubtractionStaysInRange(minutes, MINUTES_PER_HOUR);
    minutes := minutes - hours * MINUTES_PER_HOUR;

    DivArith.DivDiv(microseconds, MICROSECONDS_PER_SECOND, SECONDS_PER_MINUTE);
    DivArith.DivDiv(microseconds, MICROSECONDS_PER_MINUTE, MINUTES_PER_HOUR);
    DecomposeClosedForm(microseconds);
    d := TimeDuration(hours, minutes, seconds, micros);
  }

  /** Decomposing the total of a normalized duration gives that duration back. */
  lemma DecomposeTotal(d: TimeDuration)
    requires Normalized(d)
    ensures Decompose(TotalMicroseconds(d)) == d
  {
    var e := Decompose(TotalMicroseconds(d));
    TotalIsValue(d);
    MixedRadix.DigitsOfValue(Fields(d), UNIT_SIZES);
    assert Fields(e) == Fields(d);
  }

  /** Decompose is the one normalized duration that reassembles to the input:
      a duration is the decomposition of `microseconds` exactly when it is
      normalized and stands for that many microseconds. */
  lemma DecomposeCharacterized(microseconds: nat, d: TimeDuration)
    ensures d == Decompose(microseconds) <==> Normalized(d) && TotalMicroseconds(d) == microseconds
  {
    if Normalized(d) && TotalMicroseconds(d) == microseconds {
      DecomposeTotal(d);
    }
  }

  /** Hours are the whole hours in the input, not reduced modulo a day or anything else. */
  lemma HoursUnreduced(microseconds: nat)
    ensures Decompose(microseconds).hours * MICROSECONDS_PER_HOUR <= microseconds
    ensures microseconds < (Decompose(microseconds).hours + 1) * MICROSECONDS_PER_HOUR
  {
    DecomposeClosedForm(microseconds);
  }

  /** A zero count decomposes into the all-zero duration. */
  lemma DecomposeZero()
    ensures Decompose(0) == TimeDuration(0, 0, 0, 0)
  {
    DecomposeTotal(TimeDuration(0, 0, 0, 0));
  }

  /** 61 seconds is one minute and one second; 3 661 500 000 microseconds is one
      hour, one minute, one and a half seconds. */
  lemma DecomposeExamples()
    ensures Decompose(61000000) == TimeDuration(0, 1, 1, 0)
    ensures Decompose(3661500000) == TimeDuration(1, 1, 1, 500000)
  {
    DecomposeTotal(TimeDuration(0, 1, 1, 0));
    DecomposeTotal(TimeDuration(1, 1, 1, 500000));
  }
}
