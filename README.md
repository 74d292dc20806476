# Discordian clock: date engine and tick handler

A model of the core of a Pebble watchface that shows the time on three
rotating hands and the date in the Discordian calendar. The model covers
three things:

- **The date engine.** From C's `tm_year` (years since 1900) and `tm_yday`
  (zero-based day of the year) it computes:
  - the weekday text (five weekdays);
  - the date text, which is a holyday, a flux day, Towel Day, or
    "<season> <day>";
  - the colour index of the day;
  - the YOLD year (Year of Our Lady of Discord), which is the Gregorian
    year plus 1166.

  St. Tib's Day is the extra day of a leap year, at day index 59. It has
  no weekday and no season. The days after it in a leap year are numbered
  down by one, so the remaining days fit the 365-day calendar.
- **The per-second tick handler** (`handle_second_tick`). It recomputes the
  texts when the day changed or the flag `dateValid` is clear. It
  recomputes the hour and minute hands when the minute changed or
  `minuteValid` is clear. It recomputes the second hand on every tick.
- **The three hand-angle formulas**, in steps of `TRIG_MAX_ANGLE / 60`.

Each file is one part of the model:

| file | module | contents |
|---|---|---|
| cint.dfy | `CInt` | C's integer `/` and `%` (truncating); Dafny's are Euclidean |
| cstring.dfy | `CString` | `strcpy`, `strlen` and `snprintf` over `array<char>` buffers; the `%d` and `%04d` conversions |
| discdate.dfy | `DiscDate` | the text tables and the date engine, as functions, with lemmas about them |
| angles.dfy | `HandAngles` | the hand angles as functions of the time, with lemmas |
| disclock.dfy | `Disclock` | the `Face` class, see below |

The `Face` class holds the globals the handler reads and writes:
- the three text buffers (fixed-size `array<char>`);
- the three angles;
- the two validity flags;
- the colour index.

Its methods follow the C code statement by statement. They are proved
against the functions of `DiscDate` and `HandAngles`: after a tick, the
buffers hold exactly the texts that those functions compute.

Choices made by the model:
- **Build variant.** It models the rectangular build: the fifth season is
  "the Aftermath", not the round build's "Aftermath".
- **`TRIG_MAX_ANGLE`.** It comes from a platform header that is not part
  of this model. It is a parameter of the `Face` constructor (the field
  `trigMaxAngle`). The model does not assume that 60 steps make a full
  turn.
- **The time.** The clock reading that `init` takes from `localtime` is a
  parameter of the constructor. The `struct tm` of each tick is a
  parameter of the handler.
- **`units_changed`.** It is a set of time units. The bit values of the
  platform's `TimeUnits` are not part of this model.
- **Redraw requests.** Each `layer_mark_dirty` call is a counter
  increment (`hourMinuteMarks`, `secondMarks`).
- **Method split.** The C function is one body. A few blocks of it are
  separate methods that run in the same order:
  - `RefreshDate` and `RefreshHands` are its two halves;
  - `ComputeDate`, `ComputeStTibsDay`, `ComputeRegularDay`,
    `ComputeDateText`, `ComputeSeasonDayText` and `ComputeYoldText` are
    blocks of the date half.

Notes on the code:
- **St. Tib's Day colour.** The sixth entry of `dayPalettes`
  (src/disclock.c:146-157, commented `St.Tib's day`) is index 5. Line 365
  stores 6 in `dayColorIndex` instead (see Findings).
- **Hour angle range.** The hour hand's angle is `STEP * (hour*5 +
  min/12)` with `hour` in 0..23. That index runs from 0 to 119 steps, so
  the afternoon hours go past one set of 60 steps.
- **Day of the year.** The day comes from `tm_year` and `tm_yday` of the
  tick's `struct tm` (src/disclock.c:345-347).
- **Leap rule.** The comment beside the rule says it is valid for
  1600..2199. It is wrong for 1700, 1800 and 1900
  (`DiscDate.TibsYearAgreesWithGregorian`). In those years, 1 March
  (`tm_yday` 59) is shown as St. Tib's Day, 31 December is shown as
  "the Aftermath 72", and "the Aftermath 73" never appears
  (`DiscDate.Year1900LosesADay` states it for 1900). The model
  keeps the rule as written, because that is what the watchface
  displays.

## Model

| member | source | states |
|---|---|---|
| CInt.CDiv | src/disclock.c:297-298 | C's `/` with a positive divisor: the quotient truncated toward zero, bounded on both sides for each sign of the dividend |
| CInt.CRem | src/disclock.c:370-375 | C's `%` with a positive divisor: `a == b*(a/b) + r`, with `r` carrying the sign of `a` and smaller than `b` in magnitude |
| CInt.NonNegativeAgrees | src/disclock.c:370-375 | on non-negative operands C's `/` and `%` equal Dafny's |
| CInt.DivisibleByFourAgrees | src/disclock.c:347 | `tm_year%4==0` tests divisibility by four for negative years too |
| CString.StrLen | src/disclock.c:392 | `strlen`: the index of the first NUL; no NUL before it |
| CString.StrLenOfHolds | src/disclock.c:391-392 | after `strcpy` of `s`, `strlen` returns `|s|` |
| CString.HoldsConcat | src/disclock.c:391-393 | a buffer starting with `p + t` then NUL holds the C string `p + t` |
| CString.StrCopy | src/disclock.c:363-364 | `strcpy` into a buffer with room: the buffer holds `s` and its NUL; the bytes after are unchanged |
| CString.Truncated | src/disclock.c:403 | what `snprintf` keeps in `size` bytes: a prefix of at most `size-1` characters; the whole text when it fits |
| CString.SnPrintf | src/disclock.c:393 | `snprintf(buf+off, len-off, ...)`: the bytes before `off` are kept, the truncated text and a NUL follow, the rest is unchanged |
| CString.Digits | src/disclock.c:393 | `%d` of a natural number: digits only, at least one, no leading zero |
| CString.DigitsBounds | src/disclock.c:393 | `Digits(n)` has `k` digits exactly when `10^(k-1) <= n < 10^k` |
| CString.DigitsRoundTrip | src/disclock.c:393 | reading back the printed digits gives the number |
| CString.DigitsUnique | src/disclock.c:393 | any digit string without a leading zero is the `%d` of its value |
| CString.Zeros | src/disclock.c:403 | the padding of `%04d`: `k` characters, all `'0'` |
| CString.ZerosValue | src/disclock.c:403 | a run of zeros denotes 0 |
| CString.LeadingZeros | src/disclock.c:403 | zero padding does not change the value of a digit string |
| CString.ZeroPad | src/disclock.c:403 | the padded text is `width` long, or as long as the digits when they are longer |
| CString.FormatDecimal | src/disclock.c:402-403 | `%0<width>d`: at least `width` characters, no NUL, digits for `v >= 0`, a `-` then digits for `v < 0` |
| CString.FormatDecimalValue | src/disclock.c:403 | `%04d` of a non-negative number reads back as the number |
| CString.FormatDecimalWidth | src/disclock.c:403 | a number below `10^width` fills exactly `width` characters |
| CString.FormatDecimalPlain | src/disclock.c:393 | `%d` of a non-negative number is its digits |
| DiscDate.TibsYear | src/disclock.c:347 | the leap test `tm_year%4==0 && tm_year!=2100-1900` with C's `%`; its meaning is stated by `TibsYearRule`, `GregorianLeapIsTibsYear` and `TibsYearAgreesWithGregorian` |
| DiscDate.TibsYearRule | src/disclock.c:347 | the leap flag is set exactly when `tm_year % 4 == 0` and `tm_year != 200`; 2100 is never a leap year |
| DiscDate.GregorianLeapIsTibsYear | src/disclock.c:347 | every Gregorian leap year is a leap year of the watchface, so `tm_yday` 365 always meets the leap branch |
| DiscDate.TibsYearAgreesWithGregorian | src/disclock.c:347 | within 1600..2199 the simplified rule equals the Gregorian rule except in 1700, 1800 and 1900 |
| DiscDate.Classify | src/disclock.c:345-359 | the St. Tib's test and the renumbering: a valid day lands in 0..364 or on St. Tib's Day; a regular day is `tm_yday` or `tm_yday - 1` |
| DiscDate.ValidDateInRange | src/disclock.c:345-359 | every day of a real year classifies to St. Tib's Day or a day in 0..364, so every later lookup is in bounds |
| DiscDate.StTibsExactly | src/disclock.c:349-353 | St. Tib's Day is exactly day 59 of a watchface leap year |
| DiscDate.LeapYearShift | src/disclock.c:354-358 | in a leap year, days before 59 match a common year and day `d > 59` is common-year day `d - 1` |
| DiscDate.NextDay | src/disclock.c:354-358 | the numbering has no gap: consecutive days are consecutive, also across St. Tib's Day |
| DiscDate.EveryDayReached | src/disclock.c:345-358 | when the two leap rules agree, every one of the 365 days is the image of exactly the expected `tm_yday` |
| DiscDate.Year1900LosesADay | src/disclock.c:347 | in 1900, 31 December shows day 363 and no day of the year shows day 364 |
| DiscDate.Weekday | src/disclock.c:370 | `yearday % 5` is in 0..4, so `dweekdayTexts[dwday]` is in bounds |
| DiscDate.Season | src/disclock.c:374 | `yearday / 73` is in 0..4 for the indexes of the season, holyday and flux day tables |
| DiscDate.DayNum | src/disclock.c:375 | `yearday % 73 + 1` is in 1..73 |
| DiscDate.SeasonDayRoundTrip | src/disclock.c:374-375 | (season, day of season) numbers the 365 days one to one |
| DiscDate.Periods | src/disclock.c:370-375 | the weekday repeats every 5 days; 73 days later is the same day of the next season |
| DiscDate.Kind | src/disclock.c:377-394 | the overlay in its order: holyday (day 5), then flux day (day 50), then Towel Day (Discord 72), else season and day |
| DiscDate.KindExactly | src/disclock.c:377-394 | each kind is chosen if and only if its own condition holds and no earlier one does |
| DiscDate.SpecialDays | src/disclock.c:377-388 | a day is special if and only if it is one of the eleven days 4, 49, 77, 122, 144, 150, 195, 223, 268, 296, 341 |
| DiscDate.KindText | src/disclock.c:377-394 | the text of each branch: `holydayTexts[season]`, `fluxdayTexts[season]`, `toweldayText`, or `seasonTexts[season]` + " " + `%d` of the day; its contract is carried by `DateText`, `DateTextPriority` and the worked examples |
| DiscDate.SeasonTextFits | src/disclock.c:20-30 | season names have no NUL and are 5 to 13 characters long |
| DiscDate.WeekdayText | src/disclock.c:361-372 | the weekday text has no NUL and is 8 to 15 characters, so it fits `dwday_str_buffer` |
| DiscDate.DateText | src/disclock.c:361-394 | the date text has no NUL and is 6 to 16 characters, so it fits `ddate_str_buffer` |
| DiscDate.DigitsAtMostTwo | src/disclock.c:393 | a day of the season prints in at most two digits |
| DiscDate.WeekdayTextIndependentOfDate | src/disclock.c:361-372 | on St. Tib's Day both texts are "St. Tib's Day"; on every other day the weekday text is `dweekdayTexts[yearday % 5]`, whatever the date text is |
| DiscDate.DateTextPriority | src/disclock.c:377-394 | the date text for each branch of the overlay, in the order the code tests them |
| DiscDate.ExampleMungday | src/disclock.c:377-380 | day 4 is "Mungday" |
| DiscDate.ExampleChaoflux | src/disclock.c:381-384 | day 49 is "Chaoflux" |
| DiscDate.ExampleTowelDay | src/disclock.c:385-388 | day 144 is "Towel Day" and its weekday text is still "Setting Orange" |
| DiscDate.ExampleFirstDay | src/disclock.c:389-394 | day 0 is Sweetmorn, "Chaos 1" |
| DiscDate.ExampleLastDay | src/disclock.c:389-394 | day 364 is "the Aftermath 73" |
| DiscDate.LongestTexts | src/disclock.c:11-48 | the longest texts are "Prickle-Prickle" (15) and "the Aftermath 73" (16) |
| DiscDate.ColorIndex | src/disclock.c:361-371 | the stored colour index: 6 exactly on St. Tib's Day, `yearday % 5` on the other days |
| DiscDate.StTibsColorOutsidePalette | src/disclock.c:365 | as written, St. Tib's Day's index 6 is past the end of the `NUM_PALETTES` = 6 table, while regular days use 0..4 |
| DiscDate.PaletteIndex | src/disclock.c:84-85 | the index the six-entry table is laid out for: in 0..5, and 5 exactly on St. Tib's Day |
| DiscDate.PaletteIndexMatchesColorIndex | src/disclock.c:84-85 | the stored and the intended index agree on exactly the regular days |
| DiscDate.Yold | src/disclock.c:402 | YOLD is the Gregorian year `tm_year + 1900` plus 1166 |
| DiscDate.YoldText | src/disclock.c:403 | `%04d` of the YOLD year: no NUL, at least four characters |
| DiscDate.YoldTextFourDigits | src/disclock.c:402-403 | for YOLD 0..9999 the text is four digits that read back as the year |
| DiscDate.Yold2015 | src/disclock.c:402 | 2015 is 3181 YOLD, printed "3181" |
| HandAngles.Step | src/disclock.c:297 | `TRIG_MAX_ANGLE / 60` truncated: 60 steps are at most one turn and less than 60 units short of it |
| HandAngles.HourIndex | src/disclock.c:298 | `hour*5 + min/12` is in 0..119, and within `5*hour .. 5*hour+4` |
| HandAngles.MinuteAngle | src/disclock.c:297 | `TRIG_MAX_ANGLE / 60 * tm_min`; its contract is carried by `Midnight`, `MinuteSecondWithinTurn` and `MinuteAngleIncreasing` |
| HandAngles.HourAngle | src/disclock.c:298 | `TRIG_MAX_ANGLE / 60 * (tm_hour*5 + tm_min/12)`; its contract is carried by `Midnight`, `HourHandEveryTwelveMinutes`, `SixOClock` and `AfternoonSixtyStepsOn` |
| HandAngles.SecondAngle | src/disclock.c:303 | `TRIG_MAX_ANGLE / 60 * tm_sec`; its contract is carried by `Midnight` and `MinuteSecondWithinTurn` |
| HandAngles.Midnight | src/disclock.c:295-304 | at 00:00:00 all three angles are 0 |
| HandAngles.MinuteSecondWithinTurn | src/disclock.c:297-303 | the minute and second angles stay within one turn, and below it except at a leap second |
| HandAngles.HourHandEveryTwelveMinutes | src/disclock.c:298 | within an hour the hour hand moves by one step exactly when the minute becomes a multiple of 12, and otherwise stays put; `HourRollover` covers the top of the hour |
| HandAngles.HourRollover | src/disclock.c:298 | from h:59 to (h+1):00 the hour hand moves one step on, completing the step every 12 minutes across the hour |
| HandAngles.MidnightRollover | src/disclock.c:298 | at 23:59 the hour hand stands 119 steps on and at 00:00 it is back at angle 0, so midnight drops it back the 119 steps of the day |
| HandAngles.SixOClock | src/disclock.c:298 | six o'clock is 30 steps; 00:12 is one step past midnight |
| HandAngles.AfternoonSixtyStepsOn | src/disclock.c:298 | an afternoon hour is 60 steps past the morning one, which is a full turn only when 60 divides `TRIG_MAX_ANGLE` |
| HandAngles.MinuteAngleIncreasing | src/disclock.c:297 | with a turn of at least 60 units, a later minute is a strictly larger angle |
| Disclock.Face.constructor | src/disclock.c:423-441 | `init`'s engine state: colour 0, both flags clear, zero-filled buffers, the hands at the current time, one redraw request per layer |
| Disclock.Face.UpdateHourMinuteAngles | src/disclock.c:295-299 | sets the minute and hour angles to those of the given time and changes nothing else |
| Disclock.Face.UpdateSecondAngle | src/disclock.c:301-304 | sets the second angle to that of the given second and changes nothing else |
| Disclock.Face.HandleSecondTick | src/disclock.c:333-419 | keeps the invariant; the texts and colour are recomputed for the tick's date if and only if the day changed or `dateValid` was 0, otherwise they are untouched; the same for the hands with the minute; the second hand always; both flags are 1 afterwards |
| Disclock.Face.RefreshDate | src/disclock.c:338-407 | the date half: recompute if and only if the day changed or the flag was clear; the buffers and colour are otherwise unchanged |
| Disclock.Face.RefreshHands | src/disclock.c:408-418 | the hands half: the hour and minute hands if and only if the minute changed or the flag was clear, with a redraw request; the second hand and its redraw request always |
| Disclock.Face.ComputeDate | src/disclock.c:345-404 | the buffers hold the weekday text, date text and YOLD text, and `dayColorIndex` is the colour index, of the tick's date |
| Disclock.Face.ComputeStTibsDay | src/disclock.c:361-365 | both buffers hold "St. Tib's Day" and the colour index is 6 |
| Disclock.Face.ComputeRegularDay | src/disclock.c:367-395 | the weekday buffer holds the weekday's name, the date buffer the date text, and the colour index is the weekday |
| Disclock.Face.ComputeDateText | src/disclock.c:377-394 | the date buffer holds the date text of the day, whichever branch is taken |
| Disclock.Face.ComputeSeasonDayText | src/disclock.c:391-393 | `strcpy` of the season, then `snprintf` of " %d" at its end: the buffer holds "<season> <day>" |
| Disclock.Face.ComputeYoldText | src/disclock.c:402-403 | the YOLD buffer holds `%04d` of the YOLD year, truncated to five characters as `snprintf` does |

## Left out

- Window, layer and text-layer creation, fonts, alignment and `text_layer_set_text`: display plumbing, no state of the engine.
- `init` beyond the engine state, plus `deinit`, `main` and the event loop: platform plumbing.
- Subscribing to the tick service: the handler's callers are outside the engine.
- `calc_pentagon` and `morph_to_arrow`: they depend on the platform's fixed-point `sin_lookup`/`cos_lookup` tables and on `GPath` objects, which are not part of this model.
- The layer draw callbacks and `setDayColors`: they only pass colour-table entries to drawing calls, and the colour values are opaque platform constants. The colour index they read is modelled.
- The single-palette build without `PBL_COLOR`: every index gives the same colours there.
- The `PBL_ROUND` build: its only difference in the core is the season text "Aftermath".
- The `DEBUG_SECONDS_AS_DAYS` and `DEBUG_SECONDS_AS_MIN` branches: both are switched off in the source.
- What `layer_mark_dirty` does: it is only counted.
- Disclock.Face.UpdateHourMinuteAngles: does not model 32-bit overflow of the angle products, because `TRIG_MAX_ANGLE` is not part of this model and the products are unbounded integers here.
- CString.StrCopy: requires that the text fits, because C leaves an overflowing `strcpy` undefined; every call in the handler meets this requirement.

## Findings

| source | as written | input that shows it | evidently intended | confidence | as-written member | corrected member |
|---|---|---|---|---|---|---|
| src/disclock.c:365 | `dayColorIndex = 6` on St. Tib's Day, then used as `dayPalettes[dayColorIndex]`, which has `NUM_PALETTES = 5+1` entries | `tm_year` 116, `tm_yday` 59 (29 February 2016): the index is 6, one past the last entry | index 5, the sixth entry, which the table reserves for St. Tib's Day | not executed | DiscDate.StTibsColorOutsidePalette | DiscDate.PaletteIndex |

The `Face` class stores the index as written (6), because that is the
value the watchface keeps. `DiscDate.PaletteIndex` is the corrected
index. `DiscDate.PaletteIndexMatchesColorIndex` proves that the two
agree on every day except St. Tib's Day.
