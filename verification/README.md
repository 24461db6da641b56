# Satashnik nixie clock: the deterministic core in Dafny

This project models the logic of the satashnik firmware, an AVR nixie-tube
clock with a DS3234-style RTC, two buttons and a boost converter. All
hardware access and concurrency are removed. What remains is a set of pure
state transitions over bounded integers, with proofs about them:

- `bits.dfy` (module `Bits`): 8- and 16-bit words as `int` subset types,
  with explicit wrap-around (`ToByte`, `ToWord`, `ToInt16`). It also holds the
  C `|` operator on naturals (`BitOr`), bits and nibbles, and `maketime`.
- `bcd.dfy` (module `Bcd`): packed decimal. It covers `frombcd`/`_frombcd`,
  `bcd_increment` and `tobcd16`.
- `calendar.dfy` (module `Calendar`): `month_length`, `days_in_month_bcd`
  and `day_of_week`. `day_of_week` is modelled twice: as a closed form, and
  as the C loop in a method proved equal to it. The weekday succession is
  proved across month and year ends.
- `rtc.dfy` (module `Rtc`): the RTC as seven byte registers at the `rtc.h`
  addresses. Reads are `rtc_x...(-1)` and writes are `(address, value)`
  transfers. Every handler returns the writes it issues, in order, so "writes
  nothing" and "writes exactly this" are exact statements.
- `daylight.dfy` (module `Daylight`): `update_daylight` and its
  `daylight_adjusted` latch. Fed a stream of readings, it applies at most one
  adjustment per day.
- `modes.dfy` (module `Modes`): the mode registers of `modes.c`. These are
  fade speed, dot mode, display mode and blink mode (with the suppression
  bit 0200), plus the power-saving mode.
- `display.dfy` (module `Display`): the digit bit permutation `swapbits`,
  `getrawdigits(_bcd)`, `fadeto` and `get_display_value`. It also holds the
  blink calibration arithmetic and the slow tick of the timer-0 interrupt
  (lines 197-263 of `main.c`): blink counter, autorepeat signal, fade arming,
  countdown and duty, frame choice and blink overlay. The proofs show that a
  fade ends after exactly `fadetime_full` slow ticks, or after one tick with
  fading off.
- `voltage.dfy` (module `Voltage`): the ADC interrupt of the regulator and
  the voltmeter readout. It proves that under a steady sample the regulator
  settles with the pulse on or off, as the sample is below or above the
  setpoint. It also proves that no ADC sample undoes `pump_nomoar`.
- `saving.dfy` (module `Saving`): `savingmode_keep`, the tube-preservation
  table, read as a schedule over clock times.
- `buttons.dfy` (module `Buttons`): the two-button editor of `buttonry.c`.
  It covers edge detection, the "+" field walk, SET increments with
  calendar-aware wrap-around, the day-of-week write-back and the auto-repeat
  delay. It also covers `buttonry_tick`.

Integer widths follow avr-gcc. `int` is 16 bits, so these are computed
modulo 65536:

- `fadetime % fadetime_quart` (a signed dividend promoted to unsigned);
- `bcq2<<1`, `2*blinkctr` and `3*blinkctr`;
- `voltage * 32` and `voltage + ADC`.

`set_fadespeed`, which `buttonry.c` calls, is modelled as `fade_set`. The
enum values are those of `modes.h`, including `SAVENIGHT = 2`.

`_frombcd` masks the tens digit with 0160 and so drops bit 7: the BCD bytes
0x80..0x99 decode to 80 less than they read. The model keeps this behaviour
(`Bcd.FromBcd`). As a consequence, the weekday the editor writes for BCD
years 0x80..0x99 is that of the year 80 earlier. Within a month, the day
edit still moves that weekday forward by one in every BCD year, 0x80..0x99
included (`Buttons.DayEditNextWeekday`). The editor's month edit does
not clamp the day, so 31 January becomes 31 February until the day is edited
(`Buttons.MonthEditKeepsDay`).

## Model

| member | source | states |
|---|---|---|
| Bits.MakeTime | util.h:81 | hh becomes the high byte and mm the low byte of the 16-bit time |
| Bcd.FromBcd | util.h:85 | a byte below 0x80 decodes to its decimal reading and nothing else does, and valid BCD below 0x80 decodes below 80 |
| Bcd.FromBcdAbove | util.h:85 | a byte from 0x80 up decodes to 80 less than its decimal reading |
| Bcd.FromBcdDropsBit7 | src/util.c:4-6 | 0x79 decodes to 79, while 0x80 decodes to 0 and 0x99 to 19 |
| Bcd.BcdIncrement | src/util.c:23-30 | the result is always valid BCD; on valid BCD input its decimal value is the input's plus one, modulo 100 |
| Bcd.IncrementCounts | src/util.c:23-30 | n increments of a BCD byte add n to its value modulo 100 |
| Bcd.IncrementCycle | src/util.c:23-30 | any multiple of 100 increments returns a BCD byte to itself |
| Bcd.ToBcd16 | src/util.c:45-54 | the top nibble is always 0xf; below 1000 the lower three nibbles are the hundreds, tens and units digits |
| Calendar.MonthLength | src/util.c:8-11 | the length is 28..31; for months 1..12 it is the Gregorian length for the leap flag |
| Calendar.DaysInMonthBcd | src/util.c:13-20 | the result is one of 0x28, 0x29, 0x30, 0x31; it is 0x29 exactly for February of a leap year and 0x28 exactly for February of other years |
| Calendar.DaysInMonthAgrees | src/util.c:8-20 | the BCD result is valid BCD, and its value equals `month_length` of the decoded month and leap flag |
| Calendar.LongMonths | src/util.c:13-20 | months 0x01, 0x03, 0x05, 0x07, 0x08, 0x10 and 0x12 have 0x31 days |
| Calendar.LongMonthsBelowTen | src/util.c:13-20 | months 1, 3, 5, 7 and 8 have 0x31 days |
| Calendar.ShortMonths | src/util.c:13-20 | months 0x04, 0x06, 0x09 and 0x11 have 0x30 days |
| Calendar.February | src/util.c:13-20 | February has 0x29 days in a leap year and 0x28 otherwise |
| Calendar.LeapOnBcdYears | src/util.c:14-19 | for a BCD year, February has 0x29 days exactly when the year's value is divisible by 4 |
| Calendar.DayOfWeek | src/util.c:33-43 | the weekday is in 0..6 |
| Calendar.DayOfWeekLoop | src/util.c:33-43 | the C loop over the months, with its 16-bit day counter, computes the closed-form weekday |
| Calendar.DayOfWeekAnchor | src/util.c:35 | 1 January 2000 is a Saturday (6) |
| Calendar.DayCountBound | src/util.c:35-40 | the 16-bit day counter does not wrap for dates up to year 100 |
| Calendar.DayOfWeekNext | src/util.c:33-43 | the calendar day after any date of 2000..2099 is the next weekday, across month and year ends |
| Calendar.DayOfWeekTomorrow | src/util.c:33-43 | within a month, day d+1 falls on the weekday after day d |
| Calendar.DayOfWeekWeekly | src/util.c:33-43 | within a month, day d+7 falls on the same weekday as day d |
| Rtc.Apply | rtc.h:12-30 | a write sets its own register and leaves the other six unchanged |
| Daylight.UpdateDaylight | cal.c:14-50 | at midnight the latch clears with no write; a set latch writes nothing; off 02:00/03:00 or off Sunday nothing changes; hour 3 is written exactly at 02:00 on a last Sunday of March and hour 2 exactly at 03:00 on a last Sunday of October; other Sundays at 02:00/03:00 set the latch without writing, while 03:00 of March's and 02:00 of October's last Sunday leave it clear; at most one write, and only together with setting the latch |
| Daylight.FallBackNight | cal.c:14-39 | on October's last Sunday, the readings 00:00, 02:00, 03:00, 02:00 and 03:00 set the clock back exactly once |
| Daylight.AtMostOncePerDay | cal.c:15-38 | over any run of readings without a midnight, at most one hour write happens, and none once the latch is set |
| Daylight.FallBackOnce | cal.c:33-39 | repeating the 03:00 reading after the October set-back writes nothing more |
| Daylight.MidnightRearms | cal.c:15-17 | a midnight reading clears the latch, so the next adjustment can fire |
| Modes.FadeSet | modes.c:14-30 | FADE_ON installs 128/32, FADE_SLOW installs 256/64 and records FADE_ON, FADE_OFF changes only the mode, other values change nothing; the full time is four quarters afterwards |
| Modes.FadeGet | modes.c:32 | reads the recorded fade mode (its values are `Modes.FadeGetNeverSlow`) |
| Modes.FadeGetNeverSlow | modes.c:24-32 | `fade_get` reports FADE_OFF after FADE_OFF, FADE_ON after FADE_ON or FADE_SLOW, and never FADE_SLOW |
| Modes.FadeSetSequence | modes.c:14-30 | after any sequence of `fade_set` calls that includes FADE_ON or FADE_SLOW, the full time is four times a positive quarter |
| Modes.DotmodeSet | modes.c:41-43 | only the dot mode changes, to the given value |
| Modes.ModeGet | modes.c:68-70 | reads the display mode (its cycle is `Modes.ModeNext`) |
| Modes.ModeNext | modes.c:53-66 | the display mode advances modulo 3; it brings slow fade and blinking dot for HHMM, normal fade and blinking dot for MMSS, no fade and no dot for VOLTAGE; blink and saving modes are untouched |
| Modes.ModeCycle | modes.c:53-70 | three `mode_next` calls return to the same state |
| Modes.BlinkmodeGet | modes.c:81 | reads the blink mode (the round trip is `Modes.BlinkmodeSet`) |
| Modes.BlinkmodeSet | modes.c:77-81 | `blinkmode_get` returns the value set, and nothing else changes |
| Modes.Suppress | util.h:45-51 | OR-ing 0200 yields 0200 plus the mode's low seven bits |
| Modes.Release | buttonry.c:137 | masking with 0177 yields a value below 0200 that equals the mode when the mode is below 0200 |
| Modes.SuppressRelease | util.h:45-51 | the suppression bit is disjoint from every blink mode: releasing a suppressed mode gives back the mode, and suppressing twice is suppressing once |
| Modes.SavingmodeGet | modes.c:95 | reads the saving mode (the round trip is `Modes.SavingmodeSet`) |
| Modes.SavingmodeSet | modes.c:91-95 | `savingmode_get` returns the value set, and nothing else changes |
| Modes.SavingmodeNext | modes.c:97-99 | WASTE goes to SAVE, SAVE to SAVENIGHT and SAVENIGHT to WASTE |
| Modes.SavingCycle | modes.c:97-99 | three `savingmode_next` calls return to the starting mode |
| Display.SwapBits | main.c:93-95 | output bits 3, 1, 0, 2 are input bits 0, 1, 2, 3 |
| Display.UnswapBits | main.c:93-95 | the inverse permutation of the low four bits |
| Display.SwapBitsBijective | main.c:93-95 | `swapbits` is a bijection on 0..15 with the stated inverse, and maps 0xf to 0xf |
| Display.SwapBitsInjective | main.c:93-95 | distinct digits give distinct port codes |
| Display.RawDigits | main.c:98-100 | each of the four nibbles of the result is the permuted code of its digit |
| Display.RawDigitsBcd | main.c:103-105 | every nibble of the result is `swapbits` of the same nibble of the time |
| Display.RawDigitsRoundTrip | main.c:98-105 | the BCD time can be recovered from its raw digits |
| Display.RawDigitsBlank | main.c:103-105 | the all-blank value 0xffff maps to 0xffff |
| Display.Calibrate | main.c:288-298 | every threshold is below 16384, so doubling it fits 16 bits, and while `3*blinkctr` fits the thresholds are ordered within the second |
| Display.CalibrateOrdered | main.c:295-297 | without 16-bit overflow, the calibrated quarters satisfy bcq1 <= bcq2 <= bcq3 |
| Display.FadeTo | main.c:151-158 | the target time, its raw digits and the fade trigger -1 are set; nothing else changes |
| Display.GetDisplayValue | main.c:161-163 | reads back the value of the last fade request (the round trip is `Display.FadeToGet`) |
| Display.FadeToGet | main.c:151-163 | after `fadeto(t)`, `get_display_value` returns t, and the raw target decodes to t |
| Display.BlinkCount | main.c:199-202 | the counter stays within 0..2*bcq2: it counts up below the bound and resets to 0 at or past it |
| Display.BlinkPeriod | main.c:199-202 | from 0 the counter reaches every value up to 2*bcq2 and is back at 0 one tick later |
| Display.BlinkCountsUpTo | main.c:199-202 | from 0, k ticks leave the counter at k, for k up to the bound |
| Display.Overlay | main.c:246-260 | with blinking off, suppressed or in the first half-period the frame is unchanged; otherwise HH blanks the high byte, MM the low byte and ALL both |
| Display.OverlaySuppressed | main.c:246 | a suppressed blink mode never alters the frame, and releasing restores the unsuppressed overlay |
| Display.Arm | main.c:211-222 | only the fade counters change, and only on a request; an armed fade satisfies the fade invariant (duty equals the quarters left) that the countdown keeps, lasting `fadetime_full` ticks from counter 0, or a single tick with fading off |
| Display.CountDown | main.c:224-236 | a running fade loses one tick; on its last tick the displayed time becomes the target and the target frame becomes the source frame |
| Display.Frame | main.c:238-243 | the frame is the source or the target frame, and it is the target once the duty is 0 |
| Display.SlowTick | main.c:197-263 | the blink counter stays bounded; autorepeat is signalled exactly when blinking is on and the counter reaches 1, bcq1, bcq2 or bcq3; fadectr stays below 32; target time and frame are kept; the output is the blink overlay of the chosen frame |
| Display.FadeStep | main.c:224-236 | while fading, each tick keeps the duty at the number of quarters left |
| Display.CountDownKeeps | main.c:224-229 | the countdown keeps the duty equal to the remaining quarters |
| Display.FadeRuns | main.c:212-236 | k ticks of a running fade count it down by k and keep the duty invariant |
| Display.FadeCompletes | main.c:212-236 | an armed fade with FADE_ON runs for exactly `fadetime_full` ticks and then shows the target time with both frames equal and duty 0 |
| Display.FadeOffCompletes | main.c:212-236 | with fading off, one tick finishes the transition |
| Display.SettledShowsTarget | main.c:238-243 | once a fade has ended, the frame shown is the target frame |
| Voltage.SetpointGet | voltage.c:78 | reads the setpoint (the round trip is `Voltage.VoltageSet`) |
| Voltage.VoltageSet | voltage.c:74-78 | `voltage_setpoint_get` returns the setpoint set, and nothing else changes |
| Voltage.Sample | voltage.c:80-87 | the voltage becomes the 16-bit average with the sample; OCR1A is 121 exactly below the setpoint and 0 exactly otherwise; the setpoint is never changed; a 10-bit voltage stays 10-bit and lies between the old value and the sample |
| Voltage.Approach | voltage.c:81 | under a steady sample each conversion halves the distance to it without crossing it |
| Voltage.Converges | voltage.c:81 | after ten steady conversions the voltage is the sample or one below it |
| Voltage.PulseOnBelowSetpoint | voltage.c:81-86 | a steady sample below the setpoint ends with the pulse on, and it stays on |
| Voltage.PulseOffAboveSetpoint | voltage.c:81-86 | a steady sample above the setpoint ends with the pulse off, and it stays off |
| Voltage.StuckBelowSetpoint | voltage.c:81-86 | a sample equal to the setpoint, approached from below, leaves the filter one below it with the pulse on |
| Voltage.PumpNomoar | voltage.c:31-38 | conversions stop, both pulse widths are 0 and the period is 255 |
| Voltage.NomoarIsFinal | voltage.c:31-38 | after `pump_nomoar`, no sample changes the converter state |
| Voltage.VoltageGetBcd | voltage.c:64-68 | the top nibble is 0xf; for a 10-bit voltage, (voltage*32)/65 is at most 503 and its three decimal digits fill the lower nibbles |
| Saving.SavingmodeKeep | main.c:59-82 | only the setpoint and brightness change; WASTE gives the high setpoint at brightness 0, SAVE the low setpoint at 1, and SAVENIGHT follows the time table; brightness 0 goes with the high setpoint and dimmed levels with the low one; unknown modes change nothing |
| Saving.NightSchedule | main.c:61-71 | on a valid clock time, SAVENIGHT is darkest from 01:01 to 06:59, dark from 00:00 to 01:00 and from 07:00 to 07:59, and normal from 08:00 |
| Buttons.SetBlinkhandler | buttonry.c:51-57 | an auto-repeat handler is installed, and `skip` is set to 1 only when none was installed |
| Buttons.DowWrite | buttonry.c:105 | the weekday write goes to the DOW register and holds `day_of_week` of the decoded fields |
| Buttons.NextHour | buttonry.c:80-82 | the hour stays valid BCD and never 0x24; a valid hour advances modulo 24 |
| Buttons.NextMinute | buttonry.c:92-93 | the minute stays valid BCD and never 0x60; a valid minute advances modulo 60 |
| Buttons.NextMonth | buttonry.c:113-114 | the month stays valid BCD and never 0x13; a valid month goes 1..12 and wraps from 12 to 1 |
| Buttons.NextDay | buttonry.c:125-128 | the day never exceeds the month's length; an increment past the last day gives 1 |
| Buttons.DayCycles | buttonry.c:125-128 | on a valid day, SET counts 1, 2, .., last day and wraps to 1 |
| Buttons.EditHour | buttonry.c:77-87 | SET on the hour writes only the new hour, installs the auto-repeat and fades to the new hour with the shown minutes |
| Buttons.EditMinute | buttonry.c:89-97 | SET on the minute writes only the new minute and fades to the shown hour with the new minutes |
| Buttons.EditYear | buttonry.c:99-108 | SET on the year writes the new year and then the weekday of the edited date, and shows 20yy |
| Buttons.EditMonth | buttonry.c:110-120 | SET on the month writes the new month and then the weekday, and shows dd.mm |
| Buttons.EditDay | buttonry.c:122-134 | SET on the day writes the new day and then the weekday, and shows dd.mm |
| Buttons.DayEditNextWeekday | buttonry.c:122-131 | for any year byte, advancing the day within a month writes the weekday after the old date's weekday, both taken of the decoded date |
| Buttons.Button1Press | buttonry.c:63-135 | SET always suppresses blinking; with `skip` pending it only counts it down; in normal display it is `mode_next` on the suppressed modes with one call to skip and nothing else changing; in SET_SEC0 only the suppression happens; in each editing state it writes exactly the edited field (and the weekday for dates); every write is a transferable byte and reaches the RTC |
| Buttons.SetAdvancesTime | buttonry.c:77-97 | on valid fields, SET advances the hour modulo 24 or the minute modulo 60, changes no other field and keeps all fields valid |
| Buttons.SetAdvancesDate | buttonry.c:99-120 | on valid fields, SET advances the year modulo 100 or the month modulo 12, changes no other field and keeps all fields valid |
| Buttons.SetAdvancesDay | buttonry.c:122-134 | on a valid day, SET advances it within the month and wraps from the last day to 1 |
| Buttons.MonthEditKeepsDay | buttonry.c:110-120 | the month edit leaves the day alone, so 31 January becomes an invalid 31 February |
| Buttons.Button1Release | buttonry.c:136-139 | releasing SET clears the suppression bit, the auto-repeat handler and `skip`, and writes nothing |
| Buttons.PressReleaseBlink | buttonry.c:63-139 | holding SET suppresses blinking, and releasing it restores the blink mode there was |
| Buttons.AutoRepeat | main.c:396-401 | an auto-repeat never changes the field being edited or whether the handler is installed, writes only the selected field's register (and the weekday for dates), every write reaching the RTC, and does nothing without a handler |
| Buttons.RepeatDelay | buttonry.c:51-69 | a SET on the hour that installs the auto-repeat advances the hour and sets one call to skip; the first auto-repeat is swallowed, leaving the hour alone, the handler armed and nothing left to skip |
| Buttons.RepeatEdits | buttonry.c:51-82 | with the handler armed and nothing to skip, each auto-repeat advances the hour (23 to 00) and writes exactly that register |
| Buttons.SetPress | buttonry.c:71-133 | an unswallowed SET outside the editor is `mode_next` with its companions and one call to skip, nothing else changing; in SET_SEC0 it changes nothing; otherwise it performs exactly the edit of the selected field, installing the auto-repeat |
| Buttons.EditField | buttonry.c:77-132 | SET on a selected field edits exactly that field and keeps the editing state, the modes and the buttons, with the auto-repeat installed |
| Buttons.PlusIdle | buttonry.c:143-166 | "+" outside the editor touches only the modes, the editing state, the fields and the display: it zeroes the seconds in MMSS, toggles saving in VOLTAGE, starts editing the hour from the RTC in HHMM, and ignores the other modes |
| Buttons.PlusField | buttonry.c:167-199 | "+" inside the editor never writes and never enters SET_SEC0; it loads the year after the minutes, and month and day after the year |
| Buttons.Button2Press | buttonry.c:143-199 | "+" never enters SET_SEC0 and never writes while editing; in MMSS it writes seconds 0; in VOLTAGE it toggles the saving mode; in HHMM it starts editing with the RTC's hour and minute, blinking the hours with fading off; from minutes it loads the year; from the year it loads month and day, each 0 replaced by 1 |
| Buttons.Button2Release | buttonry.c:200-202 | releasing "+" drops the auto-repeat handler, writes nothing and changes nothing else |
| Buttons.PlusPressRelease | buttonry.c:143-202 | after a "+" press and release no auto-repeat is armed, nothing more is written, and the field the press selected and the values it loaded stay |
| Buttons.IsSetting | buttonry.c:205-207 | the editor is active exactly outside SET_NONE (used by `Buttons.PlusCycle`) |
| Buttons.NextField | buttonry.c:167-198 | the "+" field walk never enters SET_SEC0 and leaves the editor exactly after the day |
| Buttons.FieldBlink | buttonry.c:167-198 | hour and day blink the left pair, minute and month the right pair, the year all four, and no field blinks nothing |
| Buttons.PlusSteps | buttonry.c:167-198 | while editing, "+" selects the next field and blinks its group; leaving the editor restores slow fading |
| Buttons.PlusCycle | buttonry.c:145-207 | in HHMM six "+" presses visit hour, minute, year, month and day with blink HH, MM, ALL, MM, HH, then return to normal display with no blinking and slow fade; `is_setting` holds exactly in between |
| Buttons.PlusTogglesSaving | buttonry.c:160-162 | in VOLTAGE mode "+" toggles between WASTE and SAVE and never reaches SAVENIGHT |
| Buttons.Debounce | buttonry.c:37-41 | a press is reported exactly when the old state is non-zero and the pin is zero; a release exactly in the opposite case; otherwise nothing |
| Buttons.EdgesAlternate | buttonry.c:37-41 | on any pin history, presses and releases alternate, starting with the edge the initial state allows |
| Buttons.Debounce1 | buttonry.c:37-41 | the SET handler runs at most once, for the edge found, and the state then follows the pin |
| Buttons.Debounce2 | buttonry.c:37-41 | the "+" handler runs at most once, for the edge found, and the state then follows the pin |
| Buttons.ButtonryTick | buttonry.c:209-212 | the writes are SET's handler's followed by the "+" handler's on the clock SET left, all reaching the RTC and transferable, and the debounce states follow bits 5 and 4 of the port |
| Buttons.BothPinsPress | buttonry.c:209-212 | both pins falling in one tick run the SET press and then the "+" press, SET's writes first |
| Buttons.SteadyPinsIdle | buttonry.c:209-212 | with both pins steady a tick only records them |
| Buttons.SetPinPresses | buttonry.c:209-212 | pulling the SET pin low with "+" steady runs exactly the SET press handler |
| Buttons.PlusPinPresses | buttonry.c:209-212 | pulling the "+" pin low with SET steady runs exactly the "+" press handler |

## Left out

- `rtc.c` bus transactions (`rtc_send`, `rtc_over`, `rtc_gettime`, `rtc_dump`) are I/O. The RTC is modelled as seven registers read and written whole.
- The `main()` loop is process plumbing and is left out: the UART console, sleep, watchdog, `printf_P`, the seconds-boundary resynchronisation of `blinkctr`, and `update_daylight`/`savingmode_keep` scheduling. Of the loop only the auto-repeat dispatch is modelled (`Buttons.AutoRepeat`).
- Hardware register writes are left out: port and DDR set-up, digit selection, the ghosting delay, and timer, pump and ADC initialisation. So are `pump_faster` and the ADC start in `adc_init`.
- The fast-tick dot keep-alive and early-blanking branches (main.c:184-194, 266-285) are left out as output timing. The initial value of `blinkctr` and the `halfbright` duty shortening are consumed only there.
- `calibrate_blinking`'s busy-wait against RTC second boundaries is left out; only its arithmetic (`Display.Calibrate`) is modelled.
- `cli()`/`sei()` sections and interrupt interleaving are left out: `fadeto`, each handler and each interrupt step are treated as atomic.
- `buttonry_tick` reads the port twice; the model reads it once per tick.
- Buttons.AutoRepeat: the timer's autorepeat flag (`blinktick` bit 1) is not carried from `Display.SlowTick` to the main loop; each call stands for one flagged loop pass.
- Calendar.DayOfWeekNext: proved for years 0..99 (2000-2099, the range util.h:93-94 documents). On 31 May of year 179 the 16-bit day counter wraps to zero.
- Display.SlowTick: requires `fadetime_quart > 0`. `main` calls `fade_set(FADE_SLOW)` before starting timer 0 (main.c:333-335), and the division is undefined before that.
- Display.CalibrateOrdered: requires `3*blinkctr` to fit in 16 bits. Past that, the wrapped products need not be ordered.
- Voltage.Approach: the distance bounds are stated for a 10-bit starting voltage; a larger stored value is not reachable from the ADC.
- Voltage.Converges: gives ten conversions as a sufficient count, not the least one for every start.
