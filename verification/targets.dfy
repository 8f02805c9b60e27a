/** Per-week target arithmetic: the target hours, the achievement percentage,
    the gap to target and the red/green flag. */
module Targets {
  import opened Numbers

  /** `available * (percent / 100)`: the target before rounding. */
  function EffectiveTarget(available: int, percent: real): real {
    available as real * (percent / 100.0)
  }

  /** `calculateHoursTarget`: the effective target to the nearest hour. */
  function TargetHours(available: int, percent: real): (t: int)
    ensures t as real - 0.5 <= EffectiveTarget(available, percent) < t as real + 0.5
  {
    Round(EffectiveTarget(available, percent))
  }

  /** `calculateAchievementPercent` as the code has it: the hours over the
      effective target, as a rounded percentage, with no guard on the
      divisor. It is only meaningful when the effective target is not 0. */
  function AchievementAsWritten(hours: real, available: int, percent: real): (a: int)
    requires EffectiveTarget(available, percent) != 0.0
    ensures a as real - 0.5 <= hours / EffectiveTarget(available, percent) * 100.0 < a as real + 0.5
  {
    Round(hours / EffectiveTarget(available, percent) * 100.0)
  }

  /** The achievement percentage with the divisor guarded: 0 when the
      effective target is 0, the code's figure otherwise. */
  function AchievementPercent(hours: real, available: int, percent: real): (a: int)
    ensures EffectiveTarget(available, percent) == 0.0 ==> a == 0
    ensures EffectiveTarget(available, percent) != 0.0 ==> a == AchievementAsWritten(hours, available, percent)
  {
    var effective := EffectiveTarget(available, percent);
    if effective == 0.0 then 0 else Round(hours / effective * 100.0)
  }

  /** With a non-zero percentage, the divisor vanishes exactly for a week
      with no available hours. */
  lemma EffectiveTargetVanishes(available: int, percent: real)
    requires percent != 0.0
    ensures EffectiveTarget(available, percent) == 0.0 <==> available == 0
  {
    if available != 0 {
      assert available as real != 0.0;
      assert percent / 100.0 != 0.0;
    }
  }

  /** Hitting the effective target exactly is 100%. */
  lemma AchievementOnTarget(available: int, percent: real)
    requires EffectiveTarget(available, percent) != 0.0
    ensures AchievementPercent(EffectiveTarget(available, percent), available, percent) == 100
  {
    var e := EffectiveTarget(available, percent);
    assert e / e == 1.0;
    RoundWhole(100);
  }

  /** For a positive target, more hours never lower the achievement. */
  lemma AchievementMonotone(h1: real, h2: real, available: int, percent: real)
    requires EffectiveTarget(available, percent) > 0.0
    requires h1 <= h2
    ensures AchievementPercent(h1, available, percent) <= AchievementPercent(h2, available, percent)
  {
    var e := EffectiveTarget(available, percent);
    assert h1 / e <= h2 / e;
    RoundMonotone(h1 / e * 100.0, h2 / e * 100.0);
  }

  /** For a non-negative percentage, more capacity never lowers the target. */
  lemma TargetHoursMonotone(a1: int, a2: int, percent: real)
    requires a1 <= a2 && percent >= 0.0
    ensures TargetHours(a1, percent) <= TargetHours(a2, percent)
  {
    assert a1 as real * (percent / 100.0) <= a2 as real * (percent / 100.0);
    RoundMonotone(EffectiveTarget(a1, percent), EffectiveTarget(a2, percent));
  }

  /** `gapToTarget`: the hours entered minus the rounded target. */
  function Gap(hours: real, target: int): real {
    hours - target as real
  }

  datatype Flag = Red | Green

  /** The achievement cell's class: red below target, green otherwise. */
  function FlagOf(gap: real): Flag {
    if gap < 0.0 then Red else Green
  }

  /** A week is red exactly when fewer hours than the target were entered;
      meeting the target exactly is green. */
  lemma FlagMeaning(hours: real, target: int)
    ensures FlagOf(Gap(hours, target)) == Red <==> hours < target as real
    ensures hours == target as real ==> FlagOf(Gap(hours, target)) == Green
  {
  }
}
