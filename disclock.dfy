/**
 * The state of the watchface and its per-second tick handler.
 *
 * The globals of the C program that the handler reads and writes are the
 * fields of `Face`: the three text buffers, the three hand angles, the two
 * validity flags and the colour index. What the display layers do with
 * them is not part of this model; the calls that ask for a redraw
 * (`layer_mark_dirty`) are counted.
 */
module Disclock {
  import opened CInt
  import opened CString
  import opened DiscDate
  import opened HandAngles

  const DwdayStrBufferBytes := 30
  const DdateStrBufferBytes := 40
  const YoldStrBufferBytes := 6

  /** The fields of C's `struct tm` the handler reads. */
  datatype Tm = Tm(tmSec: int, tmMin: int, tmHour: int, tmYday: int, tmYear: int)

  /** A `struct tm` as the system clock fills it in (`tm_sec` may be 60 in a leap second). */
  predicate ValidTm(t: Tm) {
    0 <= t.tmSec <= 60 && 0 <= t.tmMin <= 59 && 0 <= t.tmHour <= 23 && ValidDate(t.tmYear, t.tmYday)
  }

  /** The units of the tick service; `unitsChanged` is the set of those whose value changed. */
  datatype TimeUnit = SecondUnit | MinuteUnit | HourUnit | DayUnit | MonthUnit | YearUnit

  class Face {
    /** `TRIG_MAX_ANGLE`: the full turn of the platform's angle unit. */
    const trigMaxAngle: int

    const dwdayBuf: array<char>
    const ddateBuf: array<char>
    const yoldBuf: array<char>

    var currentSecHexAngle: int
    var currentMinHexAngle: int
    var currentHourHexAngle: int
    var dateValid: int
    var minuteValid: int
    var dayColorIndex: int

    /** Calls of `layer_mark_dirty` on the hour/minute layer and on the second layer. */
    var hourMinuteMarks: nat
    var secondMarks: nat

    /** The C strings the three buffers hold. */
    ghost var weekdayText: string
    ghost var dateText: string
    ghost var yoldText: string

    /** The date the texts were last computed for, and the time the hour and minute hands were. */
    ghost var shownYear: int
    ghost var shownYday: int
    ghost var shownHour: int
    ghost var shownMin: int

    /**
     * The buffers have the sizes of the source, are distinct and hold the
     * three texts; a set validity flag means the texts and the colour
     * index, or the hour and minute hands, are those of the date or the
     * time last computed.
     */
    ghost predicate Valid()
      reads this, dwdayBuf, ddateBuf, yoldBuf
    {
      DateValid() && TimeValid()
    }

    /** The date half of `Valid`: the buffers, their texts and `dateValid`. */
    ghost predicate DateValid()
      reads this`weekdayText, this`dateText, this`yoldText, this`dayColorIndex
      reads this`dateValid, this`shownYear, this`shownYday, dwdayBuf, ddateBuf, yoldBuf
    {
      && dwdayBuf.Length == DwdayStrBufferBytes
      && ddateBuf.Length == DdateStrBufferBytes
      && yoldBuf.Length == YoldStrBufferBytes
      && dwdayBuf != ddateBuf && dwdayBuf != yoldBuf && ddateBuf != yoldBuf
      && Holds(dwdayBuf, weekdayText) && Holds(ddateBuf, dateText) && Holds(yoldBuf, yoldText)
      && 0 <= dateValid <= 1
      && (dateValid == 1 ==> ShowsDate(shownYear, shownYday))
    }

    /** The time half of `Valid`: the hour and minute hands and `minuteValid`. */
    ghost predicate TimeValid()
      reads this`minuteValid, this`currentMinHexAngle, this`currentHourHexAngle, this`shownHour, this`shownMin
    {
      && 0 <= minuteValid <= 1
      && (minuteValid == 1 ==> ShowsTime(shownHour, shownMin))
    }

    /** The texts and the colour index are those of the given day. */
    ghost predicate ShowsDate(tmYear: int, tmYday: int)
      reads this`weekdayText, this`dateText, this`yoldText, this`dayColorIndex
    {
      && InRange(Classify(tmYear, tmYday))
      && weekdayText == WeekdayText(Classify(tmYear, tmYday))
      && dateText == DateText(Classify(tmYear, tmYday))
      && yoldText == Truncated(YoldText(tmYear), YoldStrBufferBytes)
      && dayColorIndex == ColorIndex(Classify(tmYear, tmYday))
    }

    /** The hour and minute hands are those of the given time. */
    ghost predicate ShowsTime(tmHour: int, tmMin: int)
      reads this`currentMinHexAngle, this`currentHourHexAngle
    {
      && currentMinHexAngle == MinuteAngle(trigMaxAngle, tmMin)
      && currentHourHexAngle == HourAngle(trigMaxAngle, tmHour, tmMin)
    }

    /**
     * The engine state `init` sets up: zero-filled buffers (C globals),
     * colour 0, both flags cleared, the hands at the current time, and
     * a redraw asked of both layers.
     */
    constructor (trigMaxAngle: int, t: Tm)
      ensures this.trigMaxAngle == trigMaxAngle
      ensures Valid() && fresh(dwdayBuf) && fresh(ddateBuf) && fresh(yoldBuf)
      ensures weekdayText == "" && dateText == "" && yoldText == ""
      ensures dayColorIndex == 0 && dateValid == 0 && minuteValid == 0
      ensures currentSecHexAngle == SecondAngle(trigMaxAngle, t.tmSec)
      ensures ShowsTime(t.tmHour, t.tmMin)
      ensures hourMinuteMarks == 1 && secondMarks == 1
    {
      this.trigMaxAngle := trigMaxAngle;
      dwdayBuf := new char[DwdayStrBufferBytes](_ => Nul);
      ddateBuf := new char[DdateStrBufferBytes](_ => Nul);
      yoldBuf := new char[YoldStrBufferBytes](_ => Nul);
      weekdayText, dateText, yoldText := "", "", "";
      dayColorIndex := 0;
      dateValid := 0;
      minuteValid := 0;
      new;
      UpdateSecondAngle(t);
      UpdateHourMinuteAngles(t);
      hourMinuteMarks := 1;
      secondMarks := 1;
    }

    /** `update_hour_minute_angles`. */
    method UpdateHourMinuteAngles(t: Tm)
      modifies this`currentMinHexAngle, this`currentHourHexAngle
      ensures ShowsTime(t.tmHour, t.tmMin)
    {
      currentMinHexAngle := CDiv(trigMaxAngle, 60) * t.tmMin;
      currentHourHexAngle := CDiv(trigMaxAngle, 60) * (t.tmHour * 5 + CDiv(t.tmMin, 12));
    }

    /** `update_second_angle`. */
    method UpdateSecondAngle(t: Tm)
      modifies this`currentSecHexAngle
      ensures currentSecHexAngle == SecondAngle(trigMaxAngle, t.tmSec)
    {
      currentSecHexAngle := CDiv(trigMaxAngle, 60) * t.tmSec;
    }

    /**
     * `handle_second_tick`: the texts and the colour index are recomputed
     * when the day changed or they were not valid, the hour and minute
     * hands when the minute changed or they were not valid, the second
     * hand on every tick; afterwards both flags are set.
     */
    method HandleSecondTick(t: Tm, unitsChanged: set<TimeUnit>)
      requires Valid() && ValidTm(t)
      modifies this, dwdayBuf, ddateBuf, yoldBuf
      ensures Valid() && dateValid == 1 && minuteValid == 1
      ensures var dateDue := DayUnit in unitsChanged || old(dateValid) == 0;
        && (dateDue ==> ShowsDate(t.tmYear, t.tmYday) && shownYear == t.tmYear && shownYday == t.tmYday)
        && (!dateDue ==>
              && unchanged(dwdayBuf, ddateBuf, yoldBuf)
              && weekdayText == old(weekdayText) && dateText == old(dateText) && yoldText == old(yoldText)
              && dayColorIndex == old(dayColorIndex)
              && shownYear == old(shownYear) && shownYday == old(shownYday))
      ensures var handsDue := MinuteUnit in unitsChanged || old(minuteValid) == 0;
        && (handsDue ==>
              && ShowsTime(t.tmHour, t.tmMin) && shownHour == t.tmHour && shownMin == t.tmMin
              && hourMinuteMarks == old(hourMinuteMarks) + 1)
        && (!handsDue ==>
              && currentMinHexAngle == old(currentMinHexAngle) && currentHourHexAngle == old(currentHourHexAngle)
              && shownHour == old(shownHour) && shownMin == old(shownMin)
              && hourMinuteMarks == old(hourMinuteMarks))
      ensures currentSecHexAngle == SecondAngle(trigMaxAngle, t.tmSec) && secondMarks == old(secondMarks) + 1
    {
      RefreshDate(t, unitsChanged);
      RefreshHands(t, unitsChanged);
    }

    /** The date half of `handle_second_tick`: `dateValid` and the texts. */
    method RefreshDate(t: Tm, unitsChanged: set<TimeUnit>)
      requires DateValid() && ValidTm(t)
      modifies this`dateValid, this`dayColorIndex, this`weekdayText, this`dateText, this`yoldText
      modifies this`shownYear, this`shownYday, dwdayBuf, ddateBuf, yoldBuf
      ensures DateValid() && dateValid == 1
      ensures var dateDue := DayUnit in unitsChanged || old(dateValid) == 0;
        && (dateDue ==> ShowsDate(t.tmYear, t.tmYday) && shownYear == t.tmYear && shownYday == t.tmYday)
        && (!dateDue ==>
              && unchanged(dwdayBuf, ddateBuf, yoldBuf)
              && weekdayText == old(weekdayText) && dateText == old(dateText) && yoldText == old(yoldText)
              && dayColorIndex == old(dayColorIndex)
              && shownYear == old(shownYear) && shownYday == old(shownYday))
    {
      if DayUnit in unitsChanged {
        dateValid := 0;
      }
      if dateValid == 0 {
        ComputeDate(t);
        dateValid := 1;
      }
    }

    /**
     * The hands half of `handle_second_tick`: `minuteValid` and the hour
     * and minute hands, then the second hand.
     */
    method RefreshHands(t: Tm, unitsChanged: set<TimeUnit>)
      requires TimeValid()
      modifies this`minuteValid, this`currentMinHexAngle, this`currentHourHexAngle
      modifies this`shownHour, this`shownMin, this`hourMinuteMarks, this`currentSecHexAngle, this`secondMarks
      ensures TimeValid() && minuteValid == 1
      ensures var handsDue := MinuteUnit in unitsChanged || old(minuteValid) == 0;
        && (handsDue ==>
              && ShowsTime(t.tmHour, t.tmMin) && shownHour == t.tmHour && shownMin == t.tmMin
              && hourMinuteMarks == old(hourMinuteMarks) + 1)
        && (!handsDue ==>
              && currentMinHexAngle == old(currentMinHexAngle) && currentHourHexAngle == old(currentHourHexAngle)
              && shownHour == old(shownHour) && shownMin == old(shownMin)
              && hourMinuteMarks == old(hourMinuteMarks))
      ensures currentSecHexAngle == SecondAngle(trigMaxAngle, t.tmSec) && secondMarks == old(secondMarks) + 1
    {
      if MinuteUnit in unitsChanged {
        minuteValid := 0;
      }
      if minuteValid == 0 {
        UpdateHourMinuteAngles(t);
        hourMinuteMarks := hourMinuteMarks + 1;
        minuteValid := 1;
        shownHour, shownMin := t.tmHour, t.tmMin;
      }
      UpdateSecondAngle(t);
      secondMarks := secondMarks + 1;
    }

    /**
     * The date branch of `handle_second_tick`: is it St. Tib's Day, and
     * which day of the 365-day calendar otherwise; then the texts and the
     * YOLD year.
     */
    method ComputeDate(t: Tm)
      requires DateValid() && ValidTm(t)
      modifies this`dayColorIndex, this`weekdayText, this`dateText, this`yoldText
      modifies this`shownYear, this`shownYday, dwdayBuf, ddateBuf, yoldBuf
      ensures Holds(dwdayBuf, weekdayText) && Holds(ddateBuf, dateText) && Holds(yoldBuf, yoldText)
      ensures ShowsDate(t.tmYear, t.tmYday) && shownYear == t.tmYear && shownYday == t.tmYday
    {
      var yearday := t.tmYday;
      var tibsFlag := CRem(t.tmYear, 4) == 0 && t.tmYear != 2100 - 1900;
      if tibsFlag {
        if yearday == 59 {
          // St. Tib's Day itself
        } else {
          tibsFlag := false;
          if yearday > 59 {
            yearday := yearday - 1;
          }
        }
      }
      ValidDateInRange(t.tmYear, t.tmYday);
      assert tibsFlag <==> Classify(t.tmYear, t.tmYday) == StTibs;
      assert !tibsFlag ==> Classify(t.tmYear, t.tmYday) == Regular(yearday);
      if tibsFlag {
        ComputeStTibsDay();
      } else {
        ComputeRegularDay(yearday);
      }
      ComputeYoldText(t.tmYear);
      shownYear, shownYday := t.tmYear, t.tmYday;
    }

    /** St. Tib's Day: its name in both buffers and the colour index 6. */
    method ComputeStTibsDay()
      requires dwdayBuf.Length == DwdayStrBufferBytes && ddateBuf.Length == DdateStrBufferBytes
      requires dwdayBuf != ddateBuf
      modifies this`dayColorIndex, this`weekdayText, this`dateText, dwdayBuf, ddateBuf
      ensures Holds(dwdayBuf, weekdayText) && Holds(ddateBuf, dateText)
      ensures weekdayText == WeekdayText(StTibs) && dateText == DateText(StTibs)
      ensures dayColorIndex == ColorIndex(StTibs)
    {
      StrCopy(dwdayBuf, StTibsDayText);
      StrCopy(ddateBuf, StTibsDayText);
      dayColorIndex := 6;
      weekdayText, dateText := StTibsDayText, StTibsDayText;
    }

    /** The YOLD year, `%04d` into its 6-byte buffer. */
    method ComputeYoldText(tmYear: int)
      requires yoldBuf.Length == YoldStrBufferBytes
      modifies this`yoldText, yoldBuf
      ensures Holds(yoldBuf, yoldText) && yoldText == Truncated(YoldText(tmYear), YoldStrBufferBytes)
    {
      var yold := tmYear + 1900 + 1166;
      SnPrintf(yoldBuf, 0, FormatDecimal(yold, 4));
      assert yoldBuf[..0] == [];
      yoldText := Truncated(FormatDecimal(yold, 4), YoldStrBufferBytes);
    }

    /** A day other than St. Tib's Day: the weekday, its colour and the date text. */
    method ComputeRegularDay(yearday: int)
      requires 0 <= yearday < 365
      requires dwdayBuf.Length == DwdayStrBufferBytes && ddateBuf.Length == DdateStrBufferBytes
      requires dwdayBuf != ddateBuf
      modifies this`dayColorIndex, this`weekdayText, this`dateText, dwdayBuf, ddateBuf
      ensures Holds(dwdayBuf, weekdayText) && Holds(ddateBuf, dateText)
      ensures weekdayText == WeekdayText(Regular(yearday)) && dateText == DateText(Regular(yearday))
      ensures dayColorIndex == ColorIndex(Regular(yearday))
    {
      var dwday := CRem(yearday, 5);
      dayColorIndex := dwday;
      StrCopy(dwdayBuf, WeekdayTexts[dwday]);
      var season := CDiv(yearday, 73);
      var daynum := CRem(yearday, 73) + 1;
      ComputeDateText(yearday, season, daynum);
      weekdayText, dateText := WeekdayText(Regular(yearday)), DateText(Regular(yearday));
    }

    /** The date text of a regular day: holyday, flux day, Towel Day, or the season and the day. */
    method ComputeDateText(yearday: int, season: int, daynum: int)
      requires 0 <= yearday < 365 && season == Season(yearday) && daynum == DayNum(yearday)
      requires ddateBuf.Length == DdateStrBufferBytes
      modifies ddateBuf
      ensures Holds(ddateBuf, DateText(Regular(yearday)))
    {
      if daynum == 5 {
        assert DateText(Regular(yearday)) == HolydayTexts[season] by { KindExactly(yearday); }
        StrCopy(ddateBuf, HolydayTexts[season]);
      } else if daynum == 50 {
        assert DateText(Regular(yearday)) == FluxdayTexts[season] by { KindExactly(yearday); }
        StrCopy(ddateBuf, FluxdayTexts[season]);
      } else if season == 1 && daynum == 72 {
        assert DateText(Regular(yearday)) == TowelDayText by { KindExactly(yearday); }
        StrCopy(ddateBuf, TowelDayText);
      } else {
        assert DateText(Regular(yearday)) == SeasonTexts[season] + " " + FormatDecimal(daynum, 0) by {
          KindExactly(yearday);
        }
        ComputeSeasonDayText(season, daynum);
      }
    }

    /** "<season> <day>": `strcpy` of the season name, then `snprintf` of " %d" behind it. */
    method ComputeSeasonDayText(season: int, daynum: int)
      requires 0 <= season < 5 && 1 <= daynum <= 73
      requires ddateBuf.Length == DdateStrBufferBytes
      modifies ddateBuf
      ensures Holds(ddateBuf, SeasonTexts[season] + " " + FormatDecimal(daynum, 0))
    {
      ghost var name := SeasonTexts[season];
      ghost var number := " " + FormatDecimal(daynum, 0);
      assert |number| <= 3 by {
        FormatDecimalPlain(daynum);
        DigitsAtMostTwo(daynum);
      }
      SeasonTextFits(season);
      StrCopy(ddateBuf, SeasonTexts[season]);
      StrLenOfHolds(ddateBuf, name);
      var i := StrLen(ddateBuf);
      SnPrintf(ddateBuf, i, " " + FormatDecimal(daynum, 0));
      assert ddateBuf[..i + |number|] == name + number;
      HoldsConcat(ddateBuf, name, number);
    }
  }
}
