/**
 The two-button time editor. "+" (button 2) walks through the fields hour,
 minute, year, month and day and back to normal display; "SET" (button 1)
 increments the selected field with calendar-aware wrap-around, writes it to
 the RTC together with the recomputed day of week, and auto-repeats while it
 is held. Both buttons are edge-detected from the port pins.
 */
module Buttons {
  import opened Bits
  import opened Bcd
  import opened Calendar
  import opened Rtc
  import opened Modes
  import opened Display

  /** `_setstates` */
  datatype SetState = SetNone | SetHour | SetMinute | SetSec0 | SetYear | SetMonth | SetDay

  /** `RTC_TIME rtc_time`: the field values while editing, in BCD */
  datatype RtcTime = RtcTime(hour: Byte, minute: Byte, year: Byte, month: Byte, day: Byte)

  /** Everything the button handlers read or change */
  datatype Clock = Clock(
    setState: SetState,
    rtcTime: RtcTime,
    skip: Byte,              // the static `skip` of `button1_handler`
    repeating: bool,         // `blinkhandler` is set (to `button1_handler`)
    button1: Byte,           // debounce state of button 1: last pin value
    button2: Byte,           // debounce state of button 2
    modes: Modes,
    display: Display,
    rtc: Regs)

  /** A handler call: the clock afterwards and the RTC writes it made, in order */
  datatype Step = Step(clock: Clock, writes: seq<Write>)

  /** The RTC in the result holds exactly the writes the call made. */
  predicate Consistent(c: Clock, r: Step) {
    r.clock.rtc == ApplyAll(c.rtc, r.writes)
  }

  /** Issue writes and update the RTC with them */
  function Emit(c: Clock, ws: seq<Write>): (r: Step)
    ensures Consistent(c, r) && r.writes == ws && r.clock.(rtc := c.rtc) == c
  {
    Step(c.(rtc := ApplyAll(c.rtc, ws)), ws)
  }

  /** `is_setting()` */
  predicate IsSetting(c: Clock) {
    c.setState != SetNone
  }

  /** `set_blinkhandler(button1_handler)`: install the auto-repeat only once, and skip its first call */
  function SetBlinkhandler(c: Clock): (r: Clock)
    ensures r.repeating
    ensures !c.repeating ==> r == c.(repeating := true, skip := 1)
    ensures c.repeating ==> r == c
  {
    if !c.repeating then c.(repeating := true, skip := 1) else c
  }

  /** The day-of-week write that follows a date edit, from the decoded BCD fields */
  function DowWrite(t: RtcTime): (w: Write)
    ensures w.addr == DOW && w.value < 7
    ensures w.value == DayOfWeek(FromBcd(t.year), FromBcd(t.month), FromBcd(t.day))
  {
    Write(DOW, DayOfWeek(FromBcd(t.year), FromBcd(t.month), FromBcd(t.day)))
  }

  /**
   Below a BCD bound, the increment adds one, and it reaches the bound
   exactly from the value below it.
   */
  lemma IncrementBelow(x: Byte, top: Byte)
    requires IsBcd(x) && IsBcd(top) && Value(x) < Value(top)
    ensures Value(BcdIncrement(x)) == Value(x) + 1
    ensures BcdIncrement(x) == top <==> Value(x) + 1 == Value(top)
  {
    var r, v := BcdIncrement(x), Value(x) + 1;
    assert v < 100 && Value(r) == v % 100;
    DivMod(v, 100, 0, v);
    OrderAgrees(r, top);
  }

  /** The hour after SET: 23 wraps to 00 */
  function NextHour(h: Byte): (r: Byte)
    ensures IsBcd(r) && r != 0x24
    ensures IsBcd(h) && Value(h) < 24 ==> Value(r) == (Value(h) + 1) % 24
  {
    var h0 := BcdIncrement(h);
    assert IsBcd(h) && Value(h) < 24 ==> Value(if h0 == 0x24 then 0 else h0) == (Value(h) + 1) % 24 by {
      if IsBcd(h) && Value(h) < 24 {
        IncrementBelow(h, 0x24);
        if Value(h) + 1 < 24 { DivMod(Value(h) + 1, 24, 0, Value(h) + 1); } else { DivMod(24, 24, 1, 0); }
      }
    }
    if h0 == 0x24 then 0 else h0
  }

  /** The minute after SET: 59 wraps to 00 */
  function NextMinute(mn: Byte): (r: Byte)
    ensures IsBcd(r) && r != 0x60
    ensures IsBcd(mn) && Value(mn) < 60 ==> Value(r) == (Value(mn) + 1) % 60
  {
    var m0 := BcdIncrement(mn);
    assert IsBcd(mn) && Value(mn) < 60 ==> Value(if m0 == 0x60 then 0 else m0) == (Value(mn) + 1) % 60 by {
      if IsBcd(mn) && Value(mn) < 60 {
        IncrementBelow(mn, 0x60);
        if Value(mn) + 1 < 60 { DivMod(Value(mn) + 1, 60, 0, Value(mn) + 1); } else { DivMod(60, 60, 1, 0); }
      }
    }
    if m0 == 0x60 then 0 else m0
  }

  /** The month after SET: 12 wraps to 01 */
  function NextMonth(m: Byte): (r: Byte)
    ensures IsBcd(r) && r != 0x13
    ensures IsBcd(m) && 1 <= Value(m) <= 12 ==> Value(r) == Value(m) % 12 + 1
  {
    var m0 := BcdIncrement(m);
    assert IsBcd(m) && 1 <= Value(m) <= 12 ==> Value(if m0 == 0x13 then 1 else m0) == Value(m) % 12 + 1 by {
      if IsBcd(m) && 1 <= Value(m) <= 12 {
        IncrementBelow(m, 0x13);
        if Value(m) < 12 { DivMod(Value(m), 12, 0, Value(m)); } else { DivMod(12, 12, 1, 0); }
      }
    }
    if m0 == 0x13 then 1 else m0
  }

  /** The day after SET: past the last day of the month it wraps to 01 */
  function NextDay(y: Byte, m: Byte, d: Byte): (r: Byte)
    ensures r <= DaysInMonthBcd(y, m)
    ensures BcdIncrement(d) > DaysInMonthBcd(y, m) ==> r == 1
    ensures BcdIncrement(d) <= DaysInMonthBcd(y, m) ==> r == BcdIncrement(d)
  {
    WrapDay(d, DaysInMonthBcd(y, m))
  }

  /** The increment of a day, wrapped to 01 past a last day */
  function WrapDay(d: Byte, last: Byte): Byte {
    var d0 := BcdIncrement(d);
    if d0 > last then 1 else d0
  }

  /**
   What every field edit keeps: the RTC holds the writes, no write is 0xff,
   the auto-repeat is on (skipping its first call when newly installed), and
   the set state, modes and buttons are untouched.
   */
  predicate Edited(c: Clock, r: Step) {
    Consistent(c, r) && AllWritable(r.writes) && r.clock.repeating
    && r.clock.skip == (if c.repeating then c.skip else 1)
    && r.clock.setState == c.setState && r.clock.modes == c.modes
    && r.clock.button1 == c.button1 && r.clock.button2 == c.button2
  }

  /** SET on the hour */
  function EditHour(c: Clock): (r: Step)
    ensures Edited(c, r)
    ensures var h := NextHour(c.rtcTime.hour);
            r.clock.rtcTime == c.rtcTime.(hour := h) && r.writes == [Write(HOURS, h)]
            && GetDisplayValue(r.clock.display) == MakeTime(h, LowByte(GetDisplayValue(c.display)))
  {
    var c := SetBlinkhandler(c);
    var h := NextHour(c.rtcTime.hour);
    var t := MakeTime(h, LowByte(GetDisplayValue(c.display)));
    Emit(c.(rtcTime := c.rtcTime.(hour := h), display := FadeTo(c.display, t)), [Write(HOURS, h)])
  }

  /** SET on the minute */
  function EditMinute(c: Clock): (r: Step)
    ensures Edited(c, r)
    ensures var mn := NextMinute(c.rtcTime.minute);
            r.clock.rtcTime == c.rtcTime.(minute := mn) && r.writes == [Write(MINUTES, mn)]
            && GetDisplayValue(r.clock.display) == MakeTime(HighByte(GetDisplayValue(c.display)), mn)
  {
    var c := SetBlinkhandler(c);
    var mn := NextMinute(c.rtcTime.minute);
    var t := MakeTime(HighByte(GetDisplayValue(c.display)), mn);
    Emit(c.(rtcTime := c.rtcTime.(minute := mn), display := FadeTo(c.display, t)), [Write(MINUTES, mn)])
  }

  /** SET on the year (99 wraps to 00); the weekday is rewritten */
  function EditYear(c: Clock): (r: Step)
    ensures Edited(c, r)
    ensures var y := BcdIncrement(c.rtcTime.year);
            r.clock.rtcTime == c.rtcTime.(year := y)
            && r.writes == [Write(YEAR, y), DowWrite(r.clock.rtcTime)]
            && GetDisplayValue(r.clock.display) == 0x2000 + y
  {
    var c := SetBlinkhandler(c);
    var y := BcdIncrement(c.rtcTime.year);
    var t := c.rtcTime.(year := y);
    Emit(c.(rtcTime := t, display := FadeTo(c.display, 0x2000 + y)), [Write(YEAR, y), DowWrite(t)])
  }

  /** SET on the month; the weekday is rewritten */
  function EditMonth(c: Clock): (r: Step)
    ensures Edited(c, r)
    ensures var m := NextMonth(c.rtcTime.month);
            r.clock.rtcTime == c.rtcTime.(month := m)
            && r.writes == [Write(MONTH, m), DowWrite(r.clock.rtcTime)]
            && GetDisplayValue(r.clock.display) == MakeTime(c.rtcTime.day, m)
  {
    var c := SetBlinkhandler(c);
    var m := NextMonth(c.rtcTime.month);
    var t := c.rtcTime.(month := m);
    Emit(c.(rtcTime := t, display := FadeTo(c.display, MakeTime(t.day, m))), [Write(MONTH, m), DowWrite(t)])
  }

  /** SET on the day; the weekday is rewritten */
  function EditDay(c: Clock): (r: Step)
    ensures Edited(c, r)
    ensures var d := NextDay(c.rtcTime.year, c.rtcTime.month, c.rtcTime.day);
            r.clock.rtcTime == c.rtcTime.(day := d)
            && r.writes == [Write(DAY, d), DowWrite(r.clock.rtcTime)]
            && GetDisplayValue(r.clock.display) == MakeTime(d, c.rtcTime.month)
  {
    var c := SetBlinkhandler(c);
    var d := NextDay(c.rtcTime.year, c.rtcTime.month, c.rtcTime.day);
    var t := c.rtcTime.(day := d);
    Emit(c.(rtcTime := t, display := FadeTo(c.display, MakeTime(d, t.month))), [Write(DAY, d), DowWrite(t)])
  }

  /** On a valid day of the month the day edit counts 1, 2, .., last day, 1. */
  lemma DayCycles(y: Byte, m: Byte, d: Byte)
    requires IsBcd(d) && d <= DaysInMonthBcd(y, m)
    ensures var dim := DaysInMonthBcd(y, m);
            var r := NextDay(y, m, d);
            1 <= r <= dim && IsBcd(r)
            && (d < dim ==> Value(r) == Value(d) + 1)
            && (d == dim ==> r == 1)
  {
    var dim := DaysInMonthBcd(y, m);
    MonthEndIsBcd(y, m);
    WrapCycles(d, dim);
  }

  /** The last day of a month is a BCD number from 28 to 31. */
  lemma MonthEndIsBcd(y: Byte, m: Byte)
    ensures var dim := DaysInMonthBcd(y, m);
            IsBcd(dim) && 28 <= Value(dim) <= 31
  {
    var dim := DaysInMonthBcd(y, m);
    if dim == 0x28 {
      assert Value(0x28) == 28;
    } else if dim == 0x29 {
      assert Value(0x29) == 29;
    } else if dim == 0x30 {
      assert Value(0x30) == 30;
    } else {
      assert Value(0x31) == 31;
    }
  }

  lemma WrapCycles(d: Byte, last: Byte)
    requires IsBcd(d) && IsBcd(last) && 1 <= Value(last) < 99 && d <= last
    ensures var r := WrapDay(d, last);
            1 <= r <= last && IsBcd(r)
            && (d < last ==> Value(r) == Value(d) + 1)
            && (d == last ==> r == 1)
  {
    var d0 := BcdIncrement(d);
    OrderAgrees(d, last);
    IncrementBelow(d, 0x99);
    assert Value(d0) == Value(d) + 1;
    OrderAgrees(d0, last);
    if d < last {
      assert d0 <= last;
      assert WrapDay(d, last) == d0;
      assert d0 != 0;
    } else {
      assert d0 > last;
      assert WrapDay(d, last) == 1;
    }
  }

  /**
   Editing the day forward by one within the month moves the written weekday
   forward by one, in every year byte: years from 0x80 decode 80 lower but
   still to a year `day_of_week` handles.
   */
  lemma DayEditNextWeekday(c: Clock)
    requires IsBcd(c.rtcTime.month) && 1 <= Value(c.rtcTime.month) <= 12
    requires IsBcd(c.rtcTime.day) && 1 <= Value(c.rtcTime.day)
    requires c.rtcTime.day < DaysInMonthBcd(c.rtcTime.year, c.rtcTime.month)
    ensures EditDay(c).writes[1].value
            == (DayOfWeek(FromBcd(c.rtcTime.year), FromBcd(c.rtcTime.month), FromBcd(c.rtcTime.day)) + 1) % 7
  {
    var t := c.rtcTime;
    var y, m, d := FromBcd(t.year), FromBcd(t.month), FromBcd(t.day);
    var d' := NextDay(t.year, t.month, t.day);
    NextDayDecodes(t.year, t.month, t.day);
    assert EditDay(c).writes[1].value == DayOfWeek(y, m, d + 1);
    DayOfWeekTomorrow(y, m, d);
  }

  /** Within the month the edited day decodes to the next day of the calendar. */
  lemma NextDayDecodes(y: Byte, m: Byte, d: Byte)
    requires IsBcd(m) && 1 <= Value(m) <= 12
    requires IsBcd(d) && 1 <= Value(d)
    requires d < DaysInMonthBcd(y, m)
    ensures ValidDate(FromBcd(y), FromBcd(m), FromBcd(d))
    ensures FromBcd(d) < MonthLength(FromBcd(m), IsLeap(FromBcd(y)))
    ensures FromBcd(NextDay(y, m, d)) == FromBcd(d) + 1
  {
    var dim := DaysInMonthBcd(y, m);
    DayCycles(y, m, d);
    DaysInMonthAgrees(y, m);
    OrderAgrees(d, dim);
    var d' := NextDay(y, m, d);
    assert dim <= 0x31 && m < 0x80;
    var yb, mb, db := FromBcd(y), FromBcd(m), FromBcd(d);
    FromBcdBound(y);
    assert db == Value(d) && FromBcd(d') == Value(d') == db + 1;
    assert db < MonthLength(mb, IsLeap(yb));
    assert ValidDate(yb, mb, db);
  }

  /** `button1_handler(1)`: SET pressed, or auto-repeated while held */
  function Button1Press(c: Clock): (r: Step)
    ensures Consistent(c, r) && AllWritable(r.writes)
    ensures r.clock.button1 == c.button1 && r.clock.button2 == c.button2
    ensures BlinkmodeGet(r.clock.modes) == Suppress(BlinkmodeGet(c.modes))
    ensures r.clock.setState == c.setState
    ensures c.skip > 0 ==> (r.writes == [] && r.clock == c.(skip := c.skip - 1, modes := r.clock.modes)
                            && r.clock.modes == BlinkmodeSet(c.modes, Suppress(BlinkmodeGet(c.modes))))
    ensures c.skip == 0 && c.setState == SetNone
            ==> r.writes == [] && r.clock.skip == 1 && ModeGet(r.clock.modes) == (ModeGet(c.modes) + 1) % 3
    ensures c.skip == 0 && c.setState != SetNone && c.setState != SetSec0
            ==> r.clock.repeating && r.clock.skip == (if c.repeating then 0 else 1)
    ensures c.skip == 0 && c.setState == SetSec0
            ==> r == Step(c.(modes := BlinkmodeSet(c.modes, Suppress(BlinkmodeGet(c.modes)))), [])
    ensures c.skip == 0 && c.setState == SetNone
            ==> r.clock.modes == ModeNext(BlinkmodeSet(c.modes, Suppress(BlinkmodeGet(c.modes))))
                && r.clock.(modes := c.modes, skip := c.skip) == c
    ensures c.skip == 0 && c.setState == SetHour
            ==> (r.clock.rtcTime == c.rtcTime.(hour := NextHour(c.rtcTime.hour))
                 && r.writes == [Write(HOURS, r.clock.rtcTime.hour)])
    ensures c.skip == 0 && c.setState == SetMinute
            ==> (r.clock.rtcTime == c.rtcTime.(minute := NextMinute(c.rtcTime.minute))
                 && r.writes == [Write(MINUTES, r.clock.rtcTime.minute)])
    ensures c.skip == 0 && c.setState == SetYear
            ==> (r.clock.rtcTime == c.rtcTime.(year := BcdIncrement(c.rtcTime.year))
                 && r.writes == [Write(YEAR, r.clock.rtcTime.year), DowWrite(r.clock.rtcTime)])
    ensures c.skip == 0 && c.setState == SetMonth
            ==> (r.clock.rtcTime == c.rtcTime.(month := NextMonth(c.rtcTime.month))
                 && r.writes == [Write(MONTH, r.clock.rtcTime.month), DowWrite(r.clock.rtcTime)])
    ensures c.skip == 0 && c.setState == SetDay
            ==> (r.clock.rtcTime == c.rtcTime.(day := NextDay(c.rtcTime.year, c.rtcTime.month, c.rtcTime.day))
                 && r.writes == [Write(DAY, r.clock.rtcTime.day), DowWrite(r.clock.rtcTime)])
  {
    var m := BlinkmodeSet(c.modes, Suppress(BlinkmodeGet(c.modes)));
    var c := c.(modes := m);
    if c.skip > 0 then Step(c.(skip := c.skip - 1), []) else SetPress(c)
  }

  /** An unswallowed SET: next display mode outside the editor, else edit the selected field */
  function SetPress(c: Clock): (r: Step)
    requires c.skip == 0
    ensures Consistent(c, r) && AllWritable(r.writes)
    ensures r.clock.button1 == c.button1 && r.clock.button2 == c.button2
    ensures BlinkmodeGet(r.clock.modes) == BlinkmodeGet(c.modes) && r.clock.setState == c.setState
    ensures c.setState == SetNone
            ==> r.writes == [] && r.clock.skip == 1 && ModeGet(r.clock.modes) == (ModeGet(c.modes) + 1) % 3
    ensures c.setState != SetNone && c.setState != SetSec0
            ==> r.clock.repeating && r.clock.skip == (if c.repeating then 0 else 1)
    ensures c.setState == SetSec0 ==> r == Step(c, [])
    ensures c.setState == SetNone
            ==> r.clock.modes == ModeNext(c.modes) && r.clock.(modes := c.modes, skip := c.skip) == c
    ensures c.setState == SetHour ==> r == EditHour(c)
    ensures c.setState == SetMinute ==> r == EditMinute(c)
    ensures c.setState == SetYear ==> r == EditYear(c)
    ensures c.setState == SetMonth ==> r == EditMonth(c)
    ensures c.setState == SetDay ==> r == EditDay(c)
  {
    if c.setState == SetNone then Step(c.(modes := ModeNext(c.modes), skip := 1), [])
    else if c.setState == SetSec0 then Step(c, [])
    else EditField(c)
  }

  /** SET while a field is selected: edit that field */
  function EditField(c: Clock): (r: Step)
    requires c.setState != SetNone && c.setState != SetSec0
    ensures Edited(c, r)
    ensures c.setState == SetHour ==> r == EditHour(c)
    ensures c.setState == SetMinute ==> r == EditMinute(c)
    ensures c.setState == SetYear ==> r == EditYear(c)
    ensures c.setState == SetMonth ==> r == EditMonth(c)
    ensures c.setState == SetDay ==> r == EditDay(c)
  {
    match c.setState
    case SetHour => EditHour(c)
    case SetMinute => EditMinute(c)
    case SetYear => EditYear(c)
    case SetMonth => EditMonth(c)
    case _ => EditDay(c)
  }

  /** The fields being edited: a time of day, a BCD year and a month */
  predicate FieldsValid(t: RtcTime) {
    IsBcd(t.hour) && Value(t.hour) < 24
    && IsBcd(t.minute) && Value(t.minute) < 60
    && IsBcd(t.year)
    && IsBcd(t.month) && 1 <= Value(t.month) <= 12
  }

  /** SET advances the hour modulo 24 or the minute modulo 60, and keeps every field valid. */
  lemma SetAdvancesTime(c: Clock)
    requires c.skip == 0 && FieldsValid(c.rtcTime) && (c.setState == SetHour || c.setState == SetMinute)
    ensures var t, t' := c.rtcTime, Button1Press(c).clock.rtcTime;
            FieldsValid(t')
            && (c.setState == SetHour ==> Value(t'.hour) == (Value(t.hour) + 1) % 24 && t' == t.(hour := t'.hour))
            && (c.setState == SetMinute ==> Value(t'.minute) == (Value(t.minute) + 1) % 60 && t' == t.(minute := t'.minute))
  {
  }

  /** SET advances the year modulo 100 or the month modulo 12, and keeps every field valid. */
  lemma SetAdvancesDate(c: Clock)
    requires c.skip == 0 && FieldsValid(c.rtcTime) && (c.setState == SetYear || c.setState == SetMonth)
    ensures var t, t' := c.rtcTime, Button1Press(c).clock.rtcTime;
            FieldsValid(t')
            && (c.setState == SetYear ==> Value(t'.year) == (Value(t.year) + 1) % 100 && t' == t.(year := t'.year))
            && (c.setState == SetMonth ==> Value(t'.month) == Value(t.month) % 12 + 1 && t' == t.(month := t'.month))
  {
  }

  /** SET on a valid day advances it within the month, wrapping from the last day to the first. */
  lemma SetAdvancesDay(c: Clock)
    requires c.skip == 0 && c.setState == SetDay
    requires IsBcd(c.rtcTime.day) && c.rtcTime.day <= DaysInMonthBcd(c.rtcTime.year, c.rtcTime.month)
    ensures var t, t' := c.rtcTime, Button1Press(c).clock.rtcTime;
            var dim := DaysInMonthBcd(t.year, t.month);
            t' == t.(day := t'.day) && IsBcd(t'.day) && 1 <= t'.day <= dim
            && (t.day < dim ==> Value(t'.day) == Value(t.day) + 1)
            && (t.day == dim ==> t'.day == 1)
  {
    DayCycles(c.rtcTime.year, c.rtcTime.month, c.rtcTime.day);
  }

  /**
   The month edit leaves the day alone, so 31 January becomes 31 February
   until the day is edited.
   */
  lemma MonthEditKeepsDay(c: Clock)
    requires c.rtcTime.year == 0x25 && c.rtcTime.month == 0x01 && c.rtcTime.day == 0x31
    ensures var t := EditMonth(c).clock.rtcTime;
            t.month == 0x02 && t.day == 0x31 && t.day > DaysInMonthBcd(t.year, t.month)
  {
    JanuaryNext();
    February25();
  }

  lemma JanuaryNext()
    ensures NextMonth(0x01) == 0x02
  {
    var a := ToByte(0x01 + 1);
    assert a == 0x02 && a % 16 < 0x0a && a < 0xa0;
    assert BcdIncrement(0x01) == 0x02;
  }

  lemma February25()
    ensures DaysInMonthBcd(0x25, 0x02) == 0x28
  {
    var y := FromBcd(0x25);
    assert y == 25;
    assert !IsLeap(y);
    assert FromBcd(0x02) == 2;
  }

  /** `button1_handler(0)`: SET released, which re-enables blinking and drops the auto-repeat */
  function Button1Release(c: Clock): (r: Step)
    ensures r.writes == [] && Consistent(c, r)
    ensures BlinkmodeGet(r.clock.modes) == Release(BlinkmodeGet(c.modes))
    ensures !r.clock.repeating && r.clock.skip == 0
    ensures r.clock == c.(modes := r.clock.modes, repeating := false, skip := 0)
  {
    Step(c.(modes := BlinkmodeSet(c.modes, Release(BlinkmodeGet(c.modes))), repeating := false, skip := 0), [])
  }

  /** Holding SET suppresses blinking; releasing it brings back the blink mode there was. */
  lemma PressReleaseBlink(c: Clock)
    requires BlinkmodeGet(c.modes) < BLINK_SUPPRESS
    ensures BlinkmodeGet(Button1Press(c).clock.modes) >= BLINK_SUPPRESS
    ensures BlinkmodeGet(Button1Release(Button1Press(c).clock).clock.modes) == BlinkmodeGet(c.modes)
  {
    SuppressRelease(BlinkmodeGet(c.modes));
  }

  /** The registers an edit of each field writes: the field itself, and the weekday for dates */
  function FieldRegs(s: SetState): set<Addr> {
    match s
    case SetHour => {HOURS}
    case SetMinute => {MINUTES}
    case SetYear => {YEAR, DOW}
    case SetMonth => {MONTH, DOW}
    case SetDay => {DAY, DOW}
    case _ => {}
  }

  /** The main loop's auto-repeat: an installed handler is called as if SET were pressed again. */
  function AutoRepeat(c: Clock): (r: Step)
    ensures Consistent(c, r) && AllWritable(r.writes)
    ensures r.clock.setState == c.setState && r.clock.repeating == c.repeating
    ensures forall w | w in r.writes :: w.addr in FieldRegs(c.setState)
    ensures !c.repeating ==> r.writes == [] && r.clock == c
  {
    if c.repeating then Button1Press(c) else Step(c, [])
  }

  /**
   The first auto-repeat after a press that installed the handler is
   swallowed: it changes no field and leaves the handler armed with nothing
   left to skip.
   */
  lemma RepeatDelay(c: Clock)
    requires c.setState == SetHour && c.skip == 0 && !c.repeating
    ensures var p := Button1Press(c).clock;
            var r1 := AutoRepeat(p).clock;
            p.repeating && p.skip == 1 && p.rtcTime.hour == NextHour(c.rtcTime.hour)
            && r1.rtcTime == p.rtcTime && r1.skip == 0 && r1.setState == SetHour && r1.repeating
  {
    PressHour(c);
    PressSkipped(Button1Press(c).clock);
  }

  /** With the handler armed and nothing to skip, every auto-repeat edits the hour again. */
  lemma RepeatEdits(c: Clock)
    requires c.setState == SetHour && c.skip == 0 && c.repeating
    ensures var r := AutoRepeat(c);
            r.clock.setState == SetHour && r.clock.repeating && r.clock.skip == 0
            && r.clock.rtcTime == c.rtcTime.(hour := NextHour(c.rtcTime.hour))
            && r.writes == [Write(HOURS, r.clock.rtcTime.hour)]
  {
    PressHour(c);
  }

  /** SET on the hour field, as far as the hour and the auto-repeat are concerned */
  lemma PressHour(c: Clock)
    requires c.setState == SetHour && c.skip == 0
    ensures var r := Button1Press(c);
            r.clock.setState == SetHour && r.clock.repeating
            && r.clock.skip == (if c.repeating then 0 else 1)
            && r.clock.rtcTime.hour == NextHour(c.rtcTime.hour)
            && r.writes == [Write(HOURS, r.clock.rtcTime.hour)]
  {
  }

  /** A swallowed call only counts the skip down. */
  lemma PressSkipped(c: Clock)
    requires c.skip > 0
    ensures var r := Button1Press(c).clock;
            r.setState == c.setState && r.rtcTime == c.rtcTime
            && r.skip == c.skip - 1 && r.repeating == c.repeating
  {
  }

  /** `button2_handler(1)`: "+" pressed */
  function Button2Press(c: Clock): (r: Step)
    ensures Consistent(c, r) && AllWritable(r.writes)
    ensures r.clock.button1 == c.button1 && r.clock.button2 == c.button2
    ensures r.clock.setState != SetSec0
    ensures r.clock.repeating == c.repeating && r.clock.skip == c.skip
    ensures c.setState == SetNone && ModeGet(c.modes) == MMSS
            ==> r.writes == [Write(SECONDS, 0)] && r.clock.setState == SetNone
    ensures c.setState == SetNone && ModeGet(c.modes) == VOLTAGE
            ==> r.writes == [] && r.clock.setState == SetNone
                && r.clock.modes == SavingmodeSet(c.modes, (SavingmodeGet(c.modes) + 1) % 2)
    ensures c.setState == SetNone && ModeGet(c.modes) == HHMM
            ==> r.writes == [] && r.clock.setState == SetHour
                && BlinkmodeGet(r.clock.modes) == BLINK_HH && FadeGet(r.clock.modes) == FADE_OFF
                && r.clock.rtcTime.hour == Read(c.rtc, HOURS) && r.clock.rtcTime.minute == Read(c.rtc, MINUTES)
                && GetDisplayValue(r.clock.display) == MakeTime(Read(c.rtc, HOURS), Read(c.rtc, MINUTES))
    ensures c.setState == SetNone && ModeGet(c.modes) > VOLTAGE ==> r == Step(c, [])
    ensures c.setState != SetNone ==> r.writes == []
    ensures c.setState == SetYear
            ==> r.clock.rtcTime.month == (if Read(c.rtc, MONTH) == 0 then 1 else Read(c.rtc, MONTH))
                && r.clock.rtcTime.day == (if Read(c.rtc, DAY) == 0 then 1 else Read(c.rtc, DAY))
                && GetDisplayValue(r.clock.display) == MakeTime(r.clock.rtcTime.day, r.clock.rtcTime.month)
    ensures c.setState == SetMinute
            ==> r.clock.rtcTime.year == Read(c.rtc, YEAR)
                && GetDisplayValue(r.clock.display) == 0x2000 + Read(c.rtc, YEAR)
  {
    if c.setState == SetNone then PlusIdle(c) else PlusField(c)
  }

  /** "+" outside the editor: act on the display mode */
  function PlusIdle(c: Clock): (r: Step)
    requires c.setState == SetNone
    ensures Consistent(c, r) && AllWritable(r.writes)
    ensures r.clock.(modes := c.modes, setState := SetNone, rtcTime := c.rtcTime, display := c.display, rtc := c.rtc) == c
    ensures r.clock.setState == SetNone || r.clock.setState == SetHour
    ensures ModeGet(c.modes) == MMSS ==> r.writes == [Write(SECONDS, 0)] && r.clock.setState == SetNone
    ensures ModeGet(c.modes) == VOLTAGE
            ==> r.writes == [] && r.clock.setState == SetNone
                && r.clock.modes == SavingmodeSet(c.modes, (SavingmodeGet(c.modes) + 1) % 2)
    ensures ModeGet(c.modes) == HHMM
            ==> r.writes == [] && r.clock.setState == SetHour
                && BlinkmodeGet(r.clock.modes) == BLINK_HH && FadeGet(r.clock.modes) == FADE_OFF
                && r.clock.rtcTime.hour == Read(c.rtc, HOURS) && r.clock.rtcTime.minute == Read(c.rtc, MINUTES)
                && GetDisplayValue(r.clock.display) == MakeTime(Read(c.rtc, HOURS), Read(c.rtc, MINUTES))
    ensures ModeGet(c.modes) > VOLTAGE ==> r == Step(c, [])
  {
    var mode := ModeGet(c.modes);
    if mode == MMSS then Emit(c, [Write(SECONDS, 0)])
    else if mode == HHMM then
      var h, mn := Read(c.rtc, HOURS), Read(c.rtc, MINUTES);
      Step(c.(setState := SetHour,
              modes := FadeSet(BlinkmodeSet(c.modes, BLINK_HH), FADE_OFF),
              rtcTime := c.rtcTime.(hour := h, minute := mn),
              display := FadeTo(c.display, MakeTime(h, mn))), [])
    else if mode == VOLTAGE then
      Step(c.(modes := SavingmodeSet(c.modes, (SavingmodeGet(c.modes) + 1) % 2)), [])
    else Step(c, [])
  }

  /** "+" inside the editor: move to the next field, loading it from the RTC */
  function PlusField(c: Clock): (r: Step)
    requires c.setState != SetNone
    ensures r.writes == [] && r.clock.rtc == c.rtc
    ensures r.clock.(modes := c.modes, setState := c.setState, rtcTime := c.rtcTime, display := c.display) == c
    ensures r.clock.setState != SetSec0
    ensures c.setState == SetYear
            ==> r.clock.rtcTime.month == (if Read(c.rtc, MONTH) == 0 then 1 else Read(c.rtc, MONTH))
                && r.clock.rtcTime.day == (if Read(c.rtc, DAY) == 0 then 1 else Read(c.rtc, DAY))
                && GetDisplayValue(r.clock.display) == MakeTime(r.clock.rtcTime.day, r.clock.rtcTime.month)
    ensures c.setState == SetMinute
            ==> r.clock.rtcTime.year == Read(c.rtc, YEAR)
                && GetDisplayValue(r.clock.display) == 0x2000 + Read(c.rtc, YEAR)
  {
    match c.setState
    case SetHour =>
      Step(c.(setState := SetMinute, modes := BlinkmodeSet(c.modes, BLINK_MM)), [])
    case SetMinute =>
      var y := Read(c.rtc, YEAR);
      Step(c.(setState := SetYear, modes := BlinkmodeSet(c.modes, BLINK_ALL),
              rtcTime := c.rtcTime.(year := y), display := FadeTo(c.display, 0x2000 + y)), [])
    case SetYear =>
      var m := if Read(c.rtc, MONTH) == 0 then 1 else Read(c.rtc, MONTH);
      var d := if Read(c.rtc, DAY) == 0 then 1 else Read(c.rtc, DAY);
      Step(c.(setState := SetMonth, modes := BlinkmodeSet(c.modes, BLINK_MM),
              rtcTime := c.rtcTime.(month := m, day := d), display := FadeTo(c.display, MakeTime(d, m))), [])
    case SetMonth =>
      Step(c.(setState := SetDay, modes := BlinkmodeSet(c.modes, BLINK_HH)), [])
    case _ =>
      Step(c.(setState := SetNone, modes := FadeSet(BlinkmodeSet(c.modes, BLINK_NONE), FADE_SLOW)), [])
  }

  /** `button2_handler(0)`: "+" released, which drops the auto-repeat */
  function Button2Release(c: Clock): (r: Step)
    ensures !r.clock.repeating && r.writes == [] && Consistent(c, r)
    ensures r.clock.(repeating := c.repeating) == c
  {
    Step(c.(repeating := false), [])
  }

  /**
   A "+" press and release leave no auto-repeat armed, write nothing more
   than the press did, and keep the field the press selected with its value.
   */
  lemma PlusPressRelease(c: Clock)
    ensures var p := Button2Press(c).clock;
            var r := Button2Release(p);
            !r.clock.repeating && r.writes == [] && r.clock.rtc == p.rtc
            && r.clock.setState == p.setState && r.clock.rtcTime == p.rtcTime
            && r.clock.skip == c.skip && r.clock.modes == p.modes
  {
  }

  /** The field sequence of "+" presses */
  function NextField(s: SetState): (r: SetState)
    ensures r != SetSec0
    ensures r == SetNone <==> s == SetDay || s == SetSec0
  {
    match s
    case SetNone => SetHour
    case SetHour => SetMinute
    case SetMinute => SetYear
    case SetYear => SetMonth
    case SetMonth => SetDay
    case _ => SetNone
  }

  /**
   The blink group that marks each field: the left pair of tubes shows the
   hour or the day, the right pair the minute or the month, and the year
   fills all four.
   */
  function FieldBlink(s: SetState): (r: Byte)
    ensures r <= BLINK_ALL
    ensures r == BLINK_NONE <==> s == SetNone || s == SetSec0
    ensures r == BLINK_HH <==> s == SetHour || s == SetDay
    ensures r == BLINK_MM <==> s == SetMinute || s == SetMonth
    ensures r == BLINK_ALL <==> s == SetYear
  {
    match s
    case SetHour => BLINK_HH
    case SetMinute => BLINK_MM
    case SetYear => BLINK_ALL
    case SetMonth => BLINK_MM
    case SetDay => BLINK_HH
    case _ => BLINK_NONE
  }

  /** Outside SET_NONE, "+" selects the next field and marks it by its blink group. */
  lemma PlusSteps(c: Clock)
    requires c.setState != SetNone
    ensures var r := Button2Press(c);
            r.writes == [] && r.clock.setState == NextField(c.setState)
            && BlinkmodeGet(r.clock.modes) == FieldBlink(r.clock.setState)
            && (r.clock.setState == SetNone ==> r.clock.modes == FadeSet(c.modes.(blinkmode := BLINK_NONE), FADE_SLOW))
  {
  }

  /**
   In HHMM, six "+" presses visit hour, minute, year, month, day and return to
   normal display with slow fading and no blinking; SET_SEC0 is never entered.
   */
  lemma PlusCycle(c: Clock)
    requires c.setState == SetNone && ModeGet(c.modes) == HHMM
    ensures var c1 := Button2Press(c).clock;
            var c2 := Button2Press(c1).clock;
            var c3 := Button2Press(c2).clock;
            var c4 := Button2Press(c3).clock;
            var c5 := Button2Press(c4).clock;
            var c6 := Button2Press(c5).clock;
            c1.setState == SetHour && BlinkmodeGet(c1.modes) == BLINK_HH && IsSetting(c1)
            && c2.setState == SetMinute && BlinkmodeGet(c2.modes) == BLINK_MM && IsSetting(c2)
            && c3.setState == SetYear && BlinkmodeGet(c3.modes) == BLINK_ALL && IsSetting(c3)
            && c4.setState == SetMonth && BlinkmodeGet(c4.modes) == BLINK_MM && IsSetting(c4)
            && c5.setState == SetDay && BlinkmodeGet(c5.modes) == BLINK_HH && IsSetting(c5)
            && c6.setState == SetNone && BlinkmodeGet(c6.modes) == BLINK_NONE && !IsSetting(c6)
            && FadeGet(c6.modes) == FADE_ON && c6.modes.fadetimeFull == FADETIME_S
            && ModeGet(c6.modes) == HHMM
  {
    var c1 := Button2Press(c).clock;
    PlusSteps(c1);
    var c2 := Button2Press(c1).clock;
    PlusSteps(c2);
    var c3 := Button2Press(c2).clock;
    PlusSteps(c3);
    var c4 := Button2Press(c3).clock;
    PlusSteps(c4);
    var c5 := Button2Press(c4).clock;
    PlusSteps(c5);
  }

  /** "+" in VOLTAGE mode toggles between WASTE and SAVE; SAVENIGHT is not reachable from it. */
  lemma PlusTogglesSaving(c: Clock)
    requires c.setState == SetNone && ModeGet(c.modes) == VOLTAGE && SavingmodeGet(c.modes) <= SAVE
    ensures var s := SavingmodeGet(Button2Press(c).clock.modes);
            s <= SAVE && s != SavingmodeGet(c.modes)
    ensures SavingmodeGet(Button2Press(Button2Press(c).clock).clock.modes) == SavingmodeGet(c.modes)
  {
  }

  /** The outcome of edge detection on one pin */
  datatype Edge = Pressed | Released | NoEdge

  /**
   `debounce(port, state, handler)`: the buttons pull the pin low, so a
   non-zero state followed by a zero pin is a press and the reverse a
   release; the state then follows the pin.
   */
  function Debounce(state: Byte, port: Byte): (r: Edge)
    ensures r == Pressed <==> state != 0 && port == 0
    ensures r == Released <==> state == 0 && port != 0
    ensures r == NoEdge <==> (state == 0) == (port == 0)
  {
    if state != 0 && port == 0 then Pressed
    else if state == 0 && port != 0 then Released
    else NoEdge
  }

  /** The edges seen on a sequence of pin readings, starting from a state */
  function Edges(state: Byte, ports: seq<Byte>): seq<Edge>
    decreases |ports|
  {
    if ports == [] then []
    else
      var e := Debounce(state, ports[0]);
      (if e == NoEdge then [] else [e]) + Edges(ports[0], ports[1..])
  }

  /**
   Presses and releases alternate, whatever the pin does: a press is never
   reported twice without a release in between.
   */
  lemma {:induction false} EdgesAlternate(state: Byte, ports: seq<Byte>)
    ensures var es := Edges(state, ports);
            (forall i :: 0 <= i < |es| - 1 ==> es[i] != es[i + 1])
            && (forall i :: 0 <= i < |es| ==> es[i] != NoEdge)
            && (|es| > 0 ==> es[0] == (if state != 0 then Pressed else Released))
    decreases |ports|
  {
    if ports != [] {
      var e := Debounce(state, ports[0]);
      EdgesAlternate(ports[0], ports[1..]);
      var rest := Edges(ports[0], ports[1..]);
      var es := Edges(state, ports);
      if e != NoEdge {
        assert es == [e] + rest;
        assert forall i :: 1 <= i < |es| ==> es[i] == rest[i - 1];
      } else {
        assert es == rest;
      }
    }
  }

  /** `debounce(port, &button1_state, button1_handler)` */
  function Debounce1(c: Clock, port: Byte): (r: Step)
    ensures Consistent(c, r) && AllWritable(r.writes)
    ensures r.clock.button1 == port && r.clock.button2 == c.button2
    ensures Debounce(c.button1, port) == Pressed
            ==> r == Step(Button1Press(c).clock.(button1 := port), Button1Press(c).writes)
    ensures Debounce(c.button1, port) == Released
            ==> r == Step(Button1Release(c).clock.(button1 := port), [])
    ensures Debounce(c.button1, port) == NoEdge ==> r == Step(c.(button1 := port), [])
  {
    var s := match Debounce(c.button1, port)
             case Pressed => Button1Press(c)
             case Released => Button1Release(c)
             case NoEdge => Step(c, []);
    Step(s.clock.(button1 := port), s.writes)
  }

  /** `debounce(port, &button2_state, button2_handler)` */
  function Debounce2(c: Clock, port: Byte): (r: Step)
    ensures Consistent(c, r) && AllWritable(r.writes)
    ensures r.clock.button2 == port && r.clock.button1 == c.button1
    ensures Debounce(c.button2, port) == Pressed
            ==> r == Step(Button2Press(c).clock.(button2 := port), Button2Press(c).writes)
    ensures Debounce(c.button2, port) == Released
            ==> r == Step(Button2Release(c).clock.(button2 := port), [])
    ensures Debounce(c.button2, port) == NoEdge ==> r == Step(c.(button2 := port), [])
  {
    var s := match Debounce(c.button2, port)
             case Pressed => Button2Press(c)
             case Released => Button2Release(c)
             case NoEdge => Step(c, []);
    Step(s.clock.(button2 := port), s.writes)
  }

  /** `PINBUTTONS & _BV(b)` */
  function PinBit(pin: Byte, b: nat): (r: Byte)
    requires b < 8
    ensures r == 0 <==> Bit(pin, b) == 0
  {
    Pow2Byte(b);
    if Bit(pin, b) == 1 then Pow2(b) else 0
  }

  lemma Pow2Byte(b: nat)
    requires b < 8
    ensures Pow2(b) < 256
  {
    match b
    case 0 => case 1 => case 2 => case 3 => case 4 => case 5 => case 6 =>
    case 7 => assert Pow2(7) == 128;
  }

  /** The port pins of the two buttons */
  const BUTTON1 := 5
  const BUTTON2 := 4

  /**
   `buttonry_tick()`: debounce SET and then "+", calling their handlers on
   the edges; both handlers' writes reach the RTC in that order.
   */
  function ButtonryTick(c: Clock, pin: Byte): (r: Step)
    ensures Consistent(c, r) && AllWritable(r.writes)
    ensures (r.clock.button1 == 0 <==> Bit(pin, BUTTON1) == 0) && (r.clock.button2 == 0 <==> Bit(pin, BUTTON2) == 0)
    ensures var s1 := Debounce1(c, PinBit(pin, BUTTON1));
            var s2 := Debounce2(s1.clock, PinBit(pin, BUTTON2));
            r.writes == s1.writes + s2.writes && r.clock == s2.clock
  {
    var s1 := Debounce1(c, PinBit(pin, BUTTON1));
    var s2 := Debounce2(s1.clock, PinBit(pin, BUTTON2));
    ApplyAllConcat(c.rtc, s1.writes, s2.writes);
    AllWritableConcat(s1.writes, s2.writes);
    Step(s2.clock, s1.writes + s2.writes)
  }

  /** With both pins steady, a tick only records them. */
  lemma SteadyPinsIdle(c: Clock, pin: Byte)
    requires (c.button1 == 0) == (Bit(pin, BUTTON1) == 0) && (c.button2 == 0) == (Bit(pin, BUTTON2) == 0)
    ensures ButtonryTick(c, pin) == Step(c.(button1 := PinBit(pin, BUTTON1), button2 := PinBit(pin, BUTTON2)), [])
  {
  }

  /** Pulling the SET pin low while "+" stays up runs the SET press handler and nothing else. */
  lemma SetPinPresses(c: Clock, pin: Byte)
    requires c.button1 != 0 && Bit(pin, BUTTON1) == 0 && (c.button2 == 0) == (Bit(pin, BUTTON2) == 0)
    ensures var r := ButtonryTick(c, pin);
            r.writes == Button1Press(c).writes
            && r.clock == Button1Press(c).clock.(button1 := 0, button2 := PinBit(pin, BUTTON2))
  {
  }

  /**
   Pulling both pins low in one tick runs the SET press handler and then the
   "+" press handler on the clock SET left; SET's writes reach the RTC first.
   */
  lemma BothPinsPress(c: Clock, pin: Byte)
    requires c.button1 != 0 && c.button2 != 0 && Bit(pin, BUTTON1) == 0 && Bit(pin, BUTTON2) == 0
    ensures var p1 := Button1Press(c);
            var p2 := Button2Press(p1.clock.(button1 := 0));
            var r := ButtonryTick(c, pin);
            r.writes == p1.writes + p2.writes && r.clock == p2.clock.(button2 := 0)
  {
    var s1 := Debounce1(c, PinBit(pin, BUTTON1));
    assert s1 == Step(Button1Press(c).clock.(button1 := 0), Button1Press(c).writes);
  }

  /** Pulling the "+" pin low while SET stays up runs the "+" press handler and nothing else. */
  lemma PlusPinPresses(c: Clock, pin: Byte)
    requires c.button2 != 0 && Bit(pin, BUTTON2) == 0 && (c.button1 == 0) == (Bit(pin, BUTTON1) == 0)
    ensures var r := ButtonryTick(c, pin);
            r.writes == Button2Press(c.(button1 := PinBit(pin, BUTTON1))).writes
            && r.clock == Button2Press(c.(button1 := PinBit(pin, BUTTON1))).clock.(button2 := 0)
  {
  }
}
