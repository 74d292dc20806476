/**
 * The Discordian date engine of the watchface: from C's `tm_year` (years
 * since 1900) and `tm_yday` (zero-based day of the year) to the weekday
 * text, the date text, the colour index and the YOLD year.
 *
 * These functions are the specification the tick handler of `Disclock`
 * is proved against.
 */
module DiscDate {
  import opened CInt
  import opened CString

  const WeekdayTexts: seq<string> :=
    ["Sweetmorn", "Boomtime", "Pungenday", "Prickle-Prickle", "Setting Orange"]

  /** The rectangular-display variant; the round one says "Aftermath". */
  const SeasonTexts: seq<string> :=
    ["Chaos", "Discord", "Confusion", "Bureaucracy", "the Aftermath"]

  const HolydayTexts: seq<string> :=
    ["Mungday", "Mojoday", "Syaday", "Zaraday", "Maladay"]

  const FluxdayTexts: seq<string> :=
    ["Chaoflux", "Discoflux", "Confuflux", "Bureflux", "Afflux"]

  const StTibsDayText: string := "St. Tib's Day"
  const TowelDayText: string := "Towel Day"

  /** Zero-based day of the year that St. Tib's Day takes in a leap year. */
  const StTibsYday := 59

  /** Size of the colour table: five weekdays and St. Tib's Day. */
  const NumPalettes := 5 + 1

  /** The colour index the source stores for St. Tib's Day. */
  const StTibsColorIndex := 6

  // ------------------------------------------------------------ leap years

  /** The watchface's leap rule, on `tm_year`: divisible by four, and not 2100. */
  predicate TibsYear(tmYear: int) {
    CRem(tmYear, 4) == 0 && tmYear != 2100 - 1900
  }

  /** The full Gregorian rule, on the year itself. */
  predicate GregorianLeap(year: int) {
    year % 4 == 0 && (year % 100 != 0 || year % 400 == 0)
  }

  function DaysInYear(year: int): int {
    if GregorianLeap(year) then 366 else 365
  }

  lemma TibsYearRule(tmYear: int)
    ensures TibsYear(tmYear) <==> tmYear % 4 == 0 && tmYear != 200
    ensures !TibsYear(2100 - 1900)
  {
    DivisibleByFourAgrees(tmYear);
  }

  /** Every real leap year is taken for one, so day 365 always belongs to a leap year of the watchface. */
  lemma GregorianLeapIsTibsYear(tmYear: int)
    requires GregorianLeap(tmYear + 1900)
    ensures TibsYear(tmYear)
  {
    DivisibleByFourAgrees(tmYear);
  }

  /**
   * Within 1600..2199 the simplified rule and the Gregorian one differ
   * only in 1700, 1800 and 1900.
   */
  lemma TibsYearAgreesWithGregorian(year: int)
    requires 1600 <= year <= 2199
    ensures TibsYear(year - 1900) == GregorianLeap(year) <==> year != 1700 && year != 1800 && year != 1900
  {
    DivisibleByFourAgrees(year - 1900);
  }

  // ---------------------------------------------------- St. Tib's Day

  /** A day of the year once St. Tib's Day has been taken out. */
  datatype Day = StTibs | Regular(yearday: int)

  /** The days of the 365-day Discordian year admit every lookup. */
  predicate InRange(d: Day) {
    d.Regular? ==> 0 <= d.yearday < 365
  }

  /**
   * Day 59 of a leap year is St. Tib's Day; the later days of a leap year
   * move down by one, so that all other days fall on the 365-day calendar.
   */
  function Classify(tmYear: int, tmYday: int): (d: Day)
    ensures 0 <= tmYday < (if TibsYear(tmYear) then 366 else 365) ==> InRange(d)
    ensures d.Regular? ==> tmYday - 1 <= d.yearday <= tmYday
  {
    if !TibsYear(tmYear) || tmYday < StTibsYday then Regular(tmYday)
    else if tmYday == StTibsYday then StTibs
    else Regular(tmYday - 1)
  }

  /** A valid calendar day of the real (Gregorian) year `tmYear + 1900`. */
  predicate ValidDate(tmYear: int, tmYday: int) {
    0 <= tmYday < DaysInYear(tmYear + 1900)
  }

  lemma ValidDateInRange(tmYear: int, tmYday: int)
    requires ValidDate(tmYear, tmYday)
    ensures InRange(Classify(tmYear, tmYday))
  {
    if GregorianLeap(tmYear + 1900) {
      GregorianLeapIsTibsYear(tmYear);
    }
  }

  lemma StTibsExactly(tmYear: int, tmYday: int)
    ensures Classify(tmYear, tmYday) == StTibs <==> TibsYear(tmYear) && tmYday == 59
  {
  }

  /**
   * Across St. Tib's Day the numbering goes on without a gap: in a leap year
   * the days before 59 are those of a common year and day `d > 59` is day
   * `d - 1` of a common year.
   */
  lemma LeapYearShift(leap: int, common: int, tmYday: int)
    requires TibsYear(leap) && !TibsYear(common)
    ensures tmYday < 59 ==> Classify(leap, tmYday) == Classify(common, tmYday)
    ensures tmYday > 59 ==> Classify(leap, tmYday) == Classify(common, tmYday - 1)
  {
  }

  /** Two consecutive days of the year are consecutive Discordian days, St. Tib's Day aside. */
  lemma NextDay(tmYear: int, tmYday: int)
    ensures Classify(tmYear, tmYday).Regular? && Classify(tmYear, tmYday + 1).Regular? ==>
      Classify(tmYear, tmYday + 1).yearday == Classify(tmYear, tmYday).yearday + 1
    ensures Classify(tmYear, tmYday + 1) == StTibs ==>
      Classify(tmYear, tmYday + 2).yearday == Classify(tmYear, tmYday).yearday + 1
  {
  }

  /**
   * Every day of the 365-day calendar is reached in a year where the two
   * leap rules agree (in 1900 the last one, "the Aftermath 73", is not).
   */
  lemma EveryDayReached(tmYear: int, yearday: int)
    requires 0 <= yearday < 365
    requires TibsYear(tmYear) == GregorianLeap(tmYear + 1900)
    ensures var tmYday := if TibsYear(tmYear) && yearday >= 59 then yearday + 1 else yearday;
      ValidDate(tmYear, tmYday) && Classify(tmYear, tmYday) == Regular(yearday)
  {
  }

  /** 31 December 1900 is "the Aftermath 72": the simplified rule loses a day in that year. */
  lemma Year1900LosesADay()
    ensures ValidDate(0, 364) && Classify(0, 364) == Regular(363)
    ensures forall tmYday :: ValidDate(0, tmYday) ==> Classify(0, tmYday) != Regular(364)
  {
  }

  // ---------------------------------------- weekday, season, day of season

  function Weekday(yearday: int): (w: int)
    requires 0 <= yearday < 365
    ensures 0 <= w < 5
  {
    CRem(yearday, 5)
  }

  function Season(yearday: int): (s: int)
    requires 0 <= yearday < 365
    ensures 0 <= s < 5
  {
    CDiv(yearday, 73)
  }

  function DayNum(yearday: int): (n: int)
    requires 0 <= yearday < 365
    ensures 1 <= n <= 73
  {
    CRem(yearday, 73) + 1
  }

  /** The day of the year of day `daynum` of `season`. */
  function YeardayOf(season: int, daynum: int): (yearday: int)
    requires 0 <= season < 5 && 1 <= daynum <= 73
    ensures 0 <= yearday < 365
  {
    73 * season + daynum - 1
  }

  /** (season, day of season) numbers the 365 days one to one. */
  lemma SeasonDayRoundTrip(yearday: int, season: int, daynum: int)
    requires 0 <= yearday < 365
    requires 0 <= season < 5 && 1 <= daynum <= 73
    ensures YeardayOf(Season(yearday), DayNum(yearday)) == yearday
    ensures Season(YeardayOf(season, daynum)) == season && DayNum(YeardayOf(season, daynum)) == daynum
  {
    NonNegativeAgrees(yearday, 73);
    NonNegativeAgrees(YeardayOf(season, daynum), 73);
  }

  /** The week has five days and the season 73. */
  lemma Periods(yearday: int)
    requires 0 <= yearday
    ensures yearday + 5 < 365 ==> Weekday(yearday + 5) == Weekday(yearday)
    ensures yearday + 73 < 365 ==>
      Season(yearday + 73) == Season(yearday) + 1 && DayNum(yearday + 73) == DayNum(yearday)
  {
    NonNegativeAgrees(yearday, 5);
    NonNegativeAgrees(yearday + 5, 5);
    NonNegativeAgrees(yearday, 73);
    NonNegativeAgrees(yearday + 73, 73);
  }

  // ------------------------------------------------------- special days

  /** What the date text of a regular day shows. */
  datatype DateKind = Holyday(season: int) | Fluxday(season: int) | TowelDay | Plain(season: int, daynum: int)

  /** The special days in the order they take precedence: holyday, flux day, Towel Day. */
  function Kind(yearday: int): (k: DateKind)
    requires 0 <= yearday < 365
    ensures k.Holyday? || k.Fluxday? || k.Plain? ==> k.season == Season(yearday)
    ensures k.Plain? ==> k.daynum == DayNum(yearday)
  {
    var season := Season(yearday);
    var daynum := DayNum(yearday);
    if daynum == 5 then Holyday(season)
    else if daynum == 50 then Fluxday(season)
    else if season == 1 && daynum == 72 then TowelDay
    else Plain(season, daynum)
  }

  /** Each special day is picked by exactly its own condition; the three conditions never meet. */
  lemma KindExactly(yearday: int)
    requires 0 <= yearday < 365
    ensures Kind(yearday).Holyday? <==> DayNum(yearday) == 5
    ensures Kind(yearday).Fluxday? <==> DayNum(yearday) == 50
    ensures Kind(yearday).TowelDay? <==> Season(yearday) == 1 && DayNum(yearday) == 72
    ensures Kind(yearday).Plain? <==>
      DayNum(yearday) != 5 && DayNum(yearday) != 50 && !(Season(yearday) == 1 && DayNum(yearday) == 72)
  {
  }

  /** There are eleven special days in a year: five holydays, five flux days and Towel Day. */
  lemma SpecialDays(yearday: int)
    requires 0 <= yearday < 365
    ensures !Kind(yearday).Plain? <==>
      yearday in {4, 49, 77, 122, 144, 150, 195, 223, 268, 296, 341}
  {
    NonNegativeAgrees(yearday, 73);
  }

  function KindText(k: DateKind): (s: string)
    requires k.Holyday? || k.Fluxday? || k.Plain? ==> 0 <= k.season < 5
    requires k.Plain? ==> 1 <= k.daynum <= 73
  {
    match k
    case Holyday(season) => HolydayTexts[season]
    case Fluxday(season) => FluxdayTexts[season]
    case TowelDay => TowelDayText
    case Plain(season, daynum) => SeasonTexts[season] + " " + FormatDecimal(daynum, 0)
  }

  // ------------------------------------------------------------- texts

  /** A season name leaves room in the date buffer for " " and two digits. */
  lemma SeasonTextFits(season: int)
    requires 0 <= season < 5
    ensures NoNul(SeasonTexts[season]) && 5 <= |SeasonTexts[season]| <= 13
  {
  }

  /** The weekday text: the weekday's name, whatever the date text shows, or St. Tib's Day. */
  function WeekdayText(d: Day): (s: string)
    requires InRange(d)
    ensures NoNul(s) && 8 <= |s| <= 15
  {
    match d
    case StTibs => StTibsDayText
    case Regular(yearday) => WeekdayTexts[Weekday(yearday)]
  }

  /** The date text: the special day's name, "<season> <day>", or St. Tib's Day. */
  function DateText(d: Day): (s: string)
    requires InRange(d)
    ensures NoNul(s) && 6 <= |s| <= 16
  {
    match d
    case StTibs => StTibsDayText
    case Regular(yearday) =>
      var k := Kind(yearday);
      DigitsAtMostTwo(DayNum(yearday));
      KindText(k)
  }

  lemma DigitsAtMostTwo(n: nat)
    requires n < 100
    ensures |Digits(n)| <= 2
  {
    DigitsBounds(n);
  }

  /** On St. Tib's Day both texts say so; on any other day the weekday text is the plain weekday name. */
  lemma WeekdayTextIndependentOfDate(d: Day)
    requires InRange(d)
    ensures d == StTibs ==> WeekdayText(d) == StTibsDayText && DateText(d) == StTibsDayText
    ensures d.Regular? ==> WeekdayText(d) == WeekdayTexts[d.yearday % 5] && WeekdayText(d) != StTibsDayText
  {
    if d.Regular? {
      NonNegativeAgrees(d.yearday, 5);
    }
  }

  /** The date text of each kind of day, in the order the kinds take precedence. */
  lemma DateTextPriority(yearday: int)
    requires 0 <= yearday < 365
    ensures var s, n := yearday / 73, yearday % 73 + 1;
      && (n == 5 ==> DateText(Regular(yearday)) == HolydayTexts[s])
      && (n != 5 && n == 50 ==> DateText(Regular(yearday)) == FluxdayTexts[s])
      && (n != 5 && n != 50 && s == 1 && n == 72 ==> DateText(Regular(yearday)) == TowelDayText)
      && (n != 5 && n != 50 && !(s == 1 && n == 72) ==>
            DateText(Regular(yearday)) == SeasonTexts[s] + " " + Digits(n))
  {
    NonNegativeAgrees(yearday, 73);
  }

  /** Day 4 is Mungday, the holyday of Chaos. */
  lemma ExampleMungday()
    ensures DateText(Regular(4)) == "Mungday"
  {
    assert Kind(4) == Holyday(0) by { NonNegativeAgrees(4, 73); }
  }

  /** Day 49 is Chaoflux, the flux day of Chaos. */
  lemma ExampleChaoflux()
    ensures DateText(Regular(49)) == "Chaoflux"
  {
    assert Kind(49) == Fluxday(0) by { NonNegativeAgrees(49, 73); }
  }

  /** Discord 72 (day 144) is Towel Day, and its weekday text is still Setting Orange. */
  lemma ExampleTowelDay()
    ensures DateText(Regular(144)) == "Towel Day" && WeekdayText(Regular(144)) == "Setting Orange"
  {
    assert Kind(144) == TowelDay by { NonNegativeAgrees(144, 73); }
    assert Weekday(144) == 4 by { NonNegativeAgrees(144, 5); }
  }

  /** Day 0 is Sweetmorn, Chaos 1. */
  lemma ExampleFirstDay()
    ensures DateText(Regular(0)) == "Chaos 1" && WeekdayText(Regular(0)) == "Sweetmorn"
  {
    assert Kind(0) == Plain(0, 1);
    assert Digits(1) == "1";
  }

  /** Day 364 is "the Aftermath 73". */
  lemma ExampleLastDay()
    ensures DateText(Regular(364)) == "the Aftermath 73"
  {
    assert Kind(364) == Plain(4, 73) by { NonNegativeAgrees(364, 73); }
    assert Digits(73) == "73" by {
      assert Digits(7) == "7";
    }
  }

  /** The longest texts: "Prickle-Prickle" (15) and "the Aftermath 73" (16) fit 30- and 40-byte buffers. */
  lemma LongestTexts(d: Day)
    requires InRange(d)
    ensures |WeekdayText(d)| <= |WeekdayText(Regular(3))| == 15
    ensures |DateText(d)| <= |DateText(Regular(364))| == 16
  {
    ExampleLastDay();
    assert WeekdayText(Regular(3)) == "Prickle-Prickle" by { NonNegativeAgrees(3, 5); }
  }

  // ----------------------------------------------------------- colour

  /** The colour index the source stores: the weekday, or 6 for St. Tib's Day. */
  function ColorIndex(d: Day): (c: int)
    requires InRange(d)
    ensures 0 <= c <= 6
    ensures c == StTibsColorIndex <==> d == StTibs
    ensures d.Regular? ==> c == d.yearday % 5
  {
    match d
    case StTibs => StTibsColorIndex
    case Regular(yearday) => NonNegativeAgrees(yearday, 5); Weekday(yearday)
  }

  /** As written, St. Tib's Day indexes past the end of the six-entry colour table. */
  lemma StTibsColorOutsidePalette()
    ensures ColorIndex(StTibs) >= NumPalettes
    ensures forall d :: InRange(d) && d.Regular? ==> ColorIndex(d) < NumPalettes - 1
  {
  }

  /** The index the colour table is laid out for: six entries, the last one for St. Tib's Day. */
  function PaletteIndex(d: Day): (c: int)
    requires InRange(d)
    ensures 0 <= c < NumPalettes
    ensures c == NumPalettes - 1 <==> d == StTibs
  {
    match d
    case StTibs => NumPalettes - 1
    case Regular(yearday) => Weekday(yearday)
  }

  /** The intended index agrees with the stored one on every day but St. Tib's Day. */
  lemma PaletteIndexMatchesColorIndex(d: Day)
    requires InRange(d)
    ensures d.Regular? <==> PaletteIndex(d) == ColorIndex(d)
  {
  }

  // ------------------------------------------------------------- YOLD

  /** The Year of Our Lady of Discord: the Gregorian year plus 1166. */
  function Yold(tmYear: int): (y: int)
    ensures y - 1166 == tmYear + 1900
  {
    tmYear + 1900 + 1166
  }

  /** The YOLD text before `snprintf` fits it into its buffer: `%04d`. */
  function YoldText(tmYear: int): (s: string)
    ensures NoNul(s) && |s| >= 4
  {
    FormatDecimal(Yold(tmYear), 4)
  }

  /** For YOLD 0 to 9999 (astronomical years -1166 to 8833) the YOLD text is four digits that read back as the YOLD year. */
  lemma YoldTextFourDigits(tmYear: int)
    requires 0 <= Yold(tmYear) <= 9999
    ensures |YoldText(tmYear)| == 4 && IsDigits(YoldText(tmYear))
    ensures DecimalValue(YoldText(tmYear)) == Yold(tmYear)
  {
    FormatDecimalWidth(Yold(tmYear), 4);
    FormatDecimalValue(Yold(tmYear), 4);
  }

  /** 2015 is 3181 YOLD. */
  lemma Yold2015()
    ensures Yold(2015 - 1900) == 3181 && YoldText(2015 - 1900) == "3181"
  {
    assert Digits(3181) == "3181" by {
      assert Digits(3) == "3";
      assert Digits(31) == "31";
      assert Digits(318) == "318";
    }
  }
}
