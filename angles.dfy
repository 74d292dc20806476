/**
 * The angles of the three hands, in the platform's angle unit:
 * `trigMaxAngle` stands for the full turn `TRIG_MAX_ANGLE` of the
 * platform header, which is not part of this model. A hand moves in
 * steps of `trigMaxAngle / 60` (C division).
 */
module HandAngles {
  import opened CInt

  /** One sixtieth of the full turn, truncated as C truncates. */
  function Step(trigMaxAngle: int): (s: int)
    ensures trigMaxAngle >= 0 ==> 0 <= 60 * s <= trigMaxAngle < 60 * s + 60
  {
    CDiv(trigMaxAngle, 60)
  }

  /** The step of the hour hand: five per hour and one more every 12 minutes. */
  function HourIndex(tmHour: int, tmMin: int): (i: int)
    ensures 0 <= tmHour <= 23 && 0 <= tmMin <= 59 ==> 0 <= i <= 119
    ensures 0 <= tmMin <= 59 ==> 5 * tmHour <= i <= 5 * tmHour + 4
  {
    tmHour * 5 + CDiv(tmMin, 12)
  }

  function MinuteAngle(trigMaxAngle: int, tmMin: int): int {
    Step(trigMaxAngle) * tmMin
  }

  function HourAngle(trigMaxAngle: int, tmHour: int, tmMin: int): int {
    Step(trigMaxAngle) * HourIndex(tmHour, tmMin)
  }

  function SecondAngle(trigMaxAngle: int, tmSec: int): int {
    Step(trigMaxAngle) * tmSec
  }

  /** At 00:00:00 every hand is at angle 0. */
  lemma Midnight(trigMaxAngle: int)
    ensures MinuteAngle(trigMaxAngle, 0) == 0 && HourAngle(trigMaxAngle, 0, 0) == 0
    ensures SecondAngle(trigMaxAngle, 0) == 0
  {
  }

  /** The minute and second hands stay within one turn; a leap second (60) may reach it. */
  lemma MinuteSecondWithinTurn(trigMaxAngle: int, t: int)
    requires trigMaxAngle > 0 && 0 <= t <= 60
    ensures 0 <= MinuteAngle(trigMaxAngle, t) <= trigMaxAngle
    ensures t < 60 ==> MinuteAngle(trigMaxAngle, t) < trigMaxAngle
    ensures SecondAngle(trigMaxAngle, t) == MinuteAngle(trigMaxAngle, t)
  {
    var s := Step(trigMaxAngle);
    assert s * t <= s * 60;
  }

  /**
   * The hour hand advances by one step exactly when the minute reaches a
   * multiple of 12, and by nothing in between.
   */
  lemma HourHandEveryTwelveMinutes(trigMaxAngle: int, tmHour: int, tmMin: int)
    requires 0 <= tmMin < 59
    ensures HourAngle(trigMaxAngle, tmHour, tmMin + 1) - HourAngle(trigMaxAngle, tmHour, tmMin)
      == if (tmMin + 1) % 12 == 0 then Step(trigMaxAngle) else 0
  {
    var s := Step(trigMaxAngle);
    NonNegativeAgrees(tmMin, 12);
    NonNegativeAgrees(tmMin + 1, 12);
    var i, j := HourIndex(tmHour, tmMin), HourIndex(tmHour, tmMin + 1);
    assert j == i + (if (tmMin + 1) % 12 == 0 then 1 else 0);
    assert s * j - s * i == s * (j - i);
  }

  /**
   * At the top of the hour (minute 60 is a multiple of 12) the hour hand
   * moves one step on, as it does every 12 minutes within the hour.
   */
  lemma HourRollover(trigMaxAngle: int, tmHour: int)
    requires 0 <= tmHour < 23
    ensures HourAngle(trigMaxAngle, tmHour + 1, 0) == HourAngle(trigMaxAngle, tmHour, 59) + Step(trigMaxAngle)
  {
    var s := Step(trigMaxAngle);
    NonNegativeAgrees(59, 12);
    var i := HourIndex(tmHour, 59);
    assert i == 5 * tmHour + 4;
    assert HourIndex(tmHour + 1, 0) == i + 1;
    assert HourAngle(trigMaxAngle, tmHour, 59) == s * i;
    assert HourAngle(trigMaxAngle, tmHour + 1, 0) == s * (i + 1);
    OneStepMore(s, i);
  }

  lemma OneStepMore(s: int, i: int)
    ensures s * (i + 1) == s * i + s
  {
  }

  /** At 23:59 the hour hand is 119 steps on; at 00:00 it is back at 0. */
  lemma MidnightRollover(trigMaxAngle: int)
    ensures HourAngle(trigMaxAngle, 23, 59) == Step(trigMaxAngle) * 119
    ensures HourAngle(trigMaxAngle, 0, 0) == 0
  {
    NonNegativeAgrees(59, 12);
    NonNegativeAgrees(0, 12);
  }

  /** Six o'clock is 30 steps, half of the 60 steps of the dial. */
  lemma SixOClock(trigMaxAngle: int)
    ensures HourAngle(trigMaxAngle, 6, 0) == 30 * Step(trigMaxAngle)
    ensures HourAngle(trigMaxAngle, 0, 12) == HourAngle(trigMaxAngle, 0, 0) + Step(trigMaxAngle)
  {
    assert HourIndex(6, 0) == 30 by { NonNegativeAgrees(0, 12); }
    assert HourIndex(0, 12) == 1 by { NonNegativeAgrees(12, 12); }
  }

  /**
   * An afternoon hour is 60 steps past the same morning hour: a full turn
   * only when 60 divides `trigMaxAngle`, and short of it by less than 60 units otherwise.
   */
  lemma AfternoonSixtyStepsOn(trigMaxAngle: int, tmHour: int, tmMin: int)
    requires trigMaxAngle >= 0 && 0 <= tmHour < 12
    ensures HourAngle(trigMaxAngle, tmHour + 12, tmMin) == HourAngle(trigMaxAngle, tmHour, tmMin) + 60 * Step(trigMaxAngle)
    ensures 0 <= trigMaxAngle - 60 * Step(trigMaxAngle) < 60
    ensures 60 * Step(trigMaxAngle) == trigMaxAngle <==> trigMaxAngle % 60 == 0
  {
    var s := Step(trigMaxAngle);
    var i := HourIndex(tmHour, tmMin);
    assert HourIndex(tmHour + 12, tmMin) == i + 60;
    assert s * (i + 60) == s * i + 60 * s;
    NonNegativeAgrees(trigMaxAngle, 60);
  }

  /** With at least 60 units to the turn, later minutes are strictly larger angles. */
  lemma MinuteAngleIncreasing(trigMaxAngle: int, m1: int, m2: int)
    requires trigMaxAngle >= 60 && m1 < m2
    ensures MinuteAngle(trigMaxAngle, m1) < MinuteAngle(trigMaxAngle, m2)
  {
    var s := Step(trigMaxAngle);
    assert s >= 1;
    StepsGrow(s, m1, m2 - m1);
  }

  lemma StepsGrow(s: int, m: int, k: int)
    requires s >= 1 && k >= 1
    ensures s * m < s * (m + k)
  {
    assert s * (m + k) == s * m + s * k;
    assert s * k >= k;
  }
}
