/** The cosmetic loading indicators driven by a 100 ms interval while a fetch is outstanding:
    the dashboard's bouncing value and the search and files pages' wrapping value. Only the step
    functions are modelled; the interval timer itself is not. */
module Progress {

  const Step: int := 5

  /** Bouncing indicator state: the shown value and the current direction (+1 or -1). */
  datatype Bounce = Bounce(value: int, direction: int)

  const BounceStart := Bounce(0, 1)

  /** One tick of the dashboard's indicator: move by five in the current direction, and reverse
      the direction when the new value reaches either bound. */
  function BounceStep(b: Bounce): Bounce {
    var v := b.value + b.direction * Step;
    Bounce(v, if v >= 100 || v <= 0 then -b.direction else b.direction)
  }

  /** The indicator after `n` ticks. */
  function BounceAfter(n: nat): Bounce {
    if n == 0 then BounceStart else BounceStep(BounceAfter(n - 1))
  }

  /** Reference description: a triangle wave of period 40 ticks, rising for 20 ticks and falling
      for 20. */
  function TriangleWave(m: nat): Bounce
    requires m < 40
  {
    Bounce(if m <= 20 then Step * m else Step * (40 - m), if m < 20 then 1 else -1)
  }

  /** One tick advances the triangle wave by one phase. */
  lemma BounceStepAdvancesWave(m: nat)
    requires m < 40
    ensures BounceStep(TriangleWave(m)) == TriangleWave(if m == 39 then 0 else m + 1)
  {
  }

  /** Within the first 40 ticks the bouncing indicator follows the triangle wave. */
  lemma {:induction false} BounceFollowsWave(m: nat)
    requires m < 40
    ensures BounceAfter(m) == TriangleWave(m)
  {
    if m > 0 {
      BounceFollowsWave(m - 1);
      BounceStepAdvancesWave(m - 1);
    }
  }

  /** ... and then repeats itself every 40 ticks. */
  lemma {:induction false} BounceIsPeriodic(n: nat)
    ensures BounceAfter(n + 40) == BounceAfter(n)
  {
    if n == 0 {
      BounceFollowsWave(39);
      BounceStepAdvancesWave(39);
    } else {
      BounceIsPeriodic(n - 1);
    }
  }

  /** Consequently the value stays a multiple of five in [0, 100], moves up only below 100 and
      down only above 0. */
  lemma {:induction false} BounceStaysInBounds(n: nat)
    ensures var b := BounceAfter(n);
      && b.value % Step == 0 && 0 <= b.value <= 100
      && (b.direction == 1 || b.direction == -1)
      && (b.direction == 1 ==> b.value < 100)
      && (b.direction == -1 ==> b.value > 0)
    decreases n
  {
    if n < 40 {
      BounceFollowsWave(n);
    } else {
      BounceIsPeriodic(n - 40);
      BounceStaysInBounds(n - 40);
    }
  }

  /** One tick of the search and files pages' indicator: advance by five and wrap to zero on
      reaching 100. */
  function WrapStep(v: int): int {
    if v + Step >= 100 then 0 else v + Step
  }

  function WrapAfter(n: nat): int {
    if n == 0 then 0 else WrapStep(WrapAfter(n - 1))
  }

  /** During the first 20 ticks the wrapping indicator counts up by five from zero. */
  lemma {:induction false} WrapFirstLap(m: nat)
    requires m < 20
    ensures WrapAfter(m) == Step * m
  {
    if m > 0 {
      WrapFirstLap(m - 1);
    }
  }

  /** ... and then repeats itself every 20 ticks. */
  lemma {:induction false} WrapIsPeriodic(n: nat)
    ensures WrapAfter(n + 20) == WrapAfter(n)
  {
    if n == 0 {
      WrapFirstLap(19);
    } else {
      WrapIsPeriodic(n - 1);
    }
  }

  /** Hence the value is always one of 0, 5, ..., 95. */
  lemma {:induction false} WrapStaysInBounds(n: nat)
    ensures WrapAfter(n) % Step == 0 && 0 <= WrapAfter(n) <= 95
    decreases n
  {
    if n < 20 {
      WrapFirstLap(n);
    } else {
      WrapIsPeriodic(n - 20);
      WrapStaysInBounds(n - 20);
    }
  }
}
