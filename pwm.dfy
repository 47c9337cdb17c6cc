/**
 * The integer part of the PWM slice configuration that the firmware builds for a
 * tone: `tone` in src/music.rs and `into_cfg` in src/bin/client/main.rs compute the
 * same fields from a target frequency (both always with a 50% duty cycle), so the
 * computation is defined once here.
 */
module Pwm {

  /** A 16-bit register value (`u16`). */
  type u16 = x: int | 0 <= x < 0x1_0000

  /** The system clock feeding the PWM slice, in Hz. */
  const SysClock: nat := 150_000_000
  /** The integer clock divider the firmware always programs. */
  const DivInt: nat := 64
  /** First value that no longer fits a `u64`. */
  const U64Limit: nat := 0x1_0000_0000_0000_0000
  /** The lowest frequency whose counter period fits 16 bits (see TopFitsIff). */
  const MinUnwrappedHz: nat := 36

  /**
   * The fields of `embassy_rp::pwm::Config` that the firmware sets. The other
   * fields keep their defaults and are not part of this model.
   */
  datatype Config = Config(enable: bool, divider: nat, top: u16, compareA: u16)

  /** `x as u16`: Rust keeps the low 16 bits. */
  function AsU16(x: nat): (r: u16)
    ensures x < 0x1_0000 ==> r == x
    ensures (r - x) % 0x1_0000 == 0
  {
    x % 0x1_0000
  }

  /** The number of counter ticks in one period of a tone of `f` Hz, before truncation to 16 bits. */
  function Period(f: nat): nat
    requires 0 < f
  {
    SysClock / (f * DivInt)
  }

  /**
   * `tone(f)`: enable the slice, divide the clock by 64, count
   * `150_000_000 / (f * 64)` ticks per period (cast to `u16`), and set the compare
   * value to `(top as f64 * 0.5) as u16`. That product is exact in `f64` and the
   * cast truncates, so the compare value is `top / 2` in integers.
   * Zero makes the source divide by zero and `f * 64` must not leave `u64`.
   */
  function ToneConfig(f: nat): (c: Config)
    requires 0 < f && f * DivInt < U64Limit
    ensures c.enable && c.divider == DivInt
    ensures c.compareA * 2 <= c.top <= c.compareA * 2 + 1
    ensures f >= MinUnwrappedHz ==> c.top * (f * DivInt) <= SysClock < (c.top + 1) * (f * DivInt)
  {
    var top := AsU16(Period(f));
    TopFitsIff(f);
    PeriodBrackets(f);
    Config(true, DivInt, top, top / 2)
  }

  /** Integer division brackets the clock: `top` whole periods fit, one more does not. */
  lemma PeriodBrackets(f: nat)
    requires 0 < f
    ensures Period(f) * (f * DivInt) <= SysClock < (Period(f) + 1) * (f * DivInt)
  {
    var d := f * DivInt;
    var q, m := SysClock / d, SysClock % d;
    assert SysClock == q * d + m && 0 <= m < d;
    assert (q + 1) * d == q * d + d;
  }

  /**
   * The period fits in 16 bits exactly for the frequencies from 36 Hz up; below
   * that `as u16` wraps the counter period.
   */
  lemma TopFitsIff(f: nat)
    requires 0 < f
    ensures Period(f) < 0x1_0000 <==> f >= MinUnwrappedHz
  {
    var d := f * DivInt;
    var q := Period(f);
    PeriodBrackets(f);
    if f >= MinUnwrappedHz {
      assert d >= 2304;
      assert q * 2304 <= q * d by { MulMonotone(q, 2304, d); }
      assert q * 2304 <= SysClock;
    } else {
      assert d <= 2240;
      assert (q + 1) * d <= (q + 1) * 2240 by { MulMonotone(q + 1, d, 2240); }
      assert SysClock < (q + 1) * 2240;
    }
  }

  /** A higher tone never gets a longer counter period: the register order follows the pitch order. */
  lemma ToneOrder(f1: nat, f2: nat)
    requires MinUnwrappedHz <= f1 <= f2 && f2 * DivInt < U64Limit
    ensures ToneConfig(f2).top <= ToneConfig(f1).top
  {
    var d1, d2 := f1 * DivInt, f2 * DivInt;
    var q1, q2 := ToneConfig(f1).top, ToneConfig(f2).top;
    assert q2 * d1 <= q2 * d2 by { MulMonotone(q2, d1, d2); }
    MulCancel(q2, q1 + 1, d1);
  }

  /** A positive factor can be cancelled from a strict inequality. */
  lemma MulCancel(x: nat, y: nat, d: nat)
    requires d > 0 && x * d < y * d
    ensures x < y
  {
  }

  lemma MulMonotone(a: nat, b: nat, c: nat)
    requires b <= c
    ensures a * b <= a * c
  {
  }

  /** The configurations of the five notes of the tune and of the client's two buzzer tones. */
  lemma KnownTones()
    ensures ToneConfig(1047) == Config(true, 64, 2238, 1119)
    ensures ToneConfig(1175) == Config(true, 64, 1994, 997)
    ensures ToneConfig(1319) == Config(true, 64, 1776, 888)
    ensures ToneConfig(1397) == Config(true, 64, 1677, 838)
    ensures ToneConfig(1568) == Config(true, 64, 1494, 747)
    ensures ToneConfig(4698) == Config(true, 64, 498, 249)
    ensures ToneConfig(4186) == Config(true, 64, 559, 279)
  {
  }
}
