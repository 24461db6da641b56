/**
 Daylight-saving adjustment (`update_daylight`): run on every clock reading,
 it moves the RTC hour from 02 to 03 on the last Sunday of March and from 03
 to 02 on the last Sunday of October. A latch remembers that the day's check
 is settled and is cleared again at 00:00.
 */
module Daylight {
  import opened Bits
  import opened Rtc

  /** The latch after the call and the RTC writes the call made */
  datatype Outcome = Outcome(adjusted: bool, writes: seq<Write>)

  /** The RTC reads a Sunday in the last week (day above 0x24) of the given BCD month. */
  predicate LastSundayOf(rtc: Regs, month: Byte) {
    Read(rtc, DOW) == 0 && Read(rtc, MONTH) == month && Read(rtc, DAY) > 0x24
  }

  /** `update_daylight(time)` with the latch `daylight_adjusted` passed in and out */
  function UpdateDaylight(adjusted: bool, time: Word, rtc: Regs): (r: Outcome)
    ensures |r.writes| <= 1 && (r.writes != [] ==> r.adjusted)
    ensures time == 0x0000 ==> r == Outcome(false, [])
    ensures adjusted && time != 0x0000 ==> r == Outcome(true, [])
    ensures time != 0x0200 && time != 0x0300 ==> r == Outcome(adjusted && time != 0x0000, [])
    ensures Read(rtc, DOW) != 0 ==> r == Outcome(adjusted && time != 0x0000, [])
    ensures r.writes == [Write(HOURS, 3)]
            <==> !adjusted && time == 0x0200 && LastSundayOf(rtc, 0x03)
    ensures r.writes == [Write(HOURS, 2)]
            <==> !adjusted && time == 0x0300 && LastSundayOf(rtc, 0x10)
    ensures !adjusted && (time == 0x0200 || time == 0x0300) && Read(rtc, DOW) == 0
            && !LastSundayOf(rtc, 0x03) && !LastSundayOf(rtc, 0x10)
            ==> r == Outcome(true, [])
    ensures !adjusted && time == 0x0300 && LastSundayOf(rtc, 0x03) ==> r == Outcome(false, [])
    ensures !adjusted && time == 0x0200 && LastSundayOf(rtc, 0x10) ==> r == Outcome(false, [])
    ensures AllWritable(r.writes)
  {
    var adjusted := if time == 0x0000 then false else adjusted;
    if adjusted then Outcome(true, [])
    else if (time == 0x0200 || time == 0x0300) && Read(rtc, DOW) == 0 then
      if Read(rtc, MONTH) == 0x03 then
        if Read(rtc, DAY) > 0x24 then
          if time == 0x0200 then Outcome(true, [Write(HOURS, 3)]) else Outcome(false, [])
        else Outcome(true, [])
      else if Read(rtc, MONTH) == 0x10 then
        if Read(rtc, DAY) > 0x24 then
          if time == 0x0300 then Outcome(true, [Write(HOURS, 2)]) else Outcome(false, [])
        else Outcome(true, [])
      else Outcome(true, [])
    else Outcome(false, [])
  }

  /** One clock reading handed to `update_daylight`: the time and the RTC contents */
  datatype Reading = Reading(time: Word, rtc: Regs)

  /** Successive calls, threading the latch and collecting the writes */
  function Run(adjusted: bool, rs: seq<Reading>): Outcome
    decreases |rs|
  {
    if rs == [] then Outcome(adjusted, [])
    else
      var first := UpdateDaylight(adjusted, rs[0].time, rs[0].rtc);
      var rest := Run(first.adjusted, rs[1..]);
      Outcome(rest.adjusted, first.writes + rest.writes)
  }

  predicate NoMidnight(rs: seq<Reading>) {
    forall i :: 0 <= i < |rs| ==> rs[i].time != 0x0000
  }

  /**
   Between two 00:00 readings the hour is written at most once, and never
   once the latch is set: the October set-back cannot repeat itself when the
   clock reaches 03:00 a second time.
   */
  lemma {:induction false} AtMostOncePerDay(adjusted: bool, rs: seq<Reading>)
    requires NoMidnight(rs)
    ensures |Run(adjusted, rs).writes| <= (if adjusted then 0 else 1)
    ensures adjusted ==> Run(adjusted, rs) == Outcome(true, [])
    decreases |rs|
  {
    if rs != [] {
      assert NoMidnight(rs[1..]) by {
        forall i | 0 <= i < |rs[1..]| ensures rs[1..][i].time != 0x0000 {
          assert rs[1..][i] == rs[i + 1];
        }
      }
      var first := UpdateDaylight(adjusted, rs[0].time, rs[0].rtc);
      AtMostOncePerDay(first.adjusted, rs[1..]);
    }
  }

  /** On the last Sunday of October two 03:00 readings set the clock back exactly once. */
  lemma FallBackOnce(rtc: Regs, rtc': Regs)
    requires LastSundayOf(rtc, 0x10) && LastSundayOf(rtc', 0x10)
    ensures Run(false, [Reading(0x0300, rtc), Reading(0x0300, rtc')]).writes == [Write(HOURS, 2)]
  {
    var rs := [Reading(0x0300, rtc), Reading(0x0300, rtc')];
    assert rs[1..] == [Reading(0x0300, rtc')];
    assert rs[1..][1..] == [];
    var first := UpdateDaylight(false, 0x0300, rtc);
    assert first == Outcome(true, [Write(HOURS, 2)]);
    assert UpdateDaylight(true, 0x0300, rtc') == Outcome(true, []);
    assert Run(true, rs[1..]) == Outcome(true, []);
  }

  /**
   The night of the October set-back: 02:00 leaves the latch clear, 03:00
   sets the clock back to 02, and when 03:00 comes round again nothing more
   is written.
   */
  lemma FallBackNight(r0: Regs, r1: Regs, r2: Regs, r3: Regs, r4: Regs)
    requires LastSundayOf(r1, 0x10) && LastSundayOf(r2, 0x10) && LastSundayOf(r3, 0x10) && LastSundayOf(r4, 0x10)
    ensures Run(false, [Reading(0x0000, r0), Reading(0x0200, r1), Reading(0x0300, r2),
                        Reading(0x0200, r3), Reading(0x0300, r4)]).writes == [Write(HOURS, 2)]
  {
    var rs := [Reading(0x0000, r0), Reading(0x0200, r1), Reading(0x0300, r2),
               Reading(0x0200, r3), Reading(0x0300, r4)];
    var tail := rs[2..];
    assert rs[1..] == [rs[1]] + tail && rs[1..][1..] == tail;
    assert tail[1..] == rs[3..];
    assert UpdateDaylight(false, 0x0000, r0) == Outcome(false, []);
    assert UpdateDaylight(false, 0x0200, r1) == Outcome(false, []);
    assert UpdateDaylight(false, 0x0300, r2) == Outcome(true, [Write(HOURS, 2)]);
    AtMostOncePerDay(true, rs[3..]);
    assert Run(false, tail).writes == [Write(HOURS, 2)] + Run(true, rs[3..]).writes;
  }

  /** A 00:00 reading re-arms the adjustment for the next day. */
  lemma MidnightRearms(adjusted: bool, rtc: Regs, rtc': Regs)
    requires LastSundayOf(rtc', 0x03)
    ensures Run(adjusted, [Reading(0x0000, rtc), Reading(0x0200, rtc')]).writes == [Write(HOURS, 3)]
  {
    var rs := [Reading(0x0000, rtc), Reading(0x0200, rtc')];
    assert rs[1..] == [Reading(0x0200, rtc')];
    assert rs[1..][1..] == [];
    assert UpdateDaylight(adjusted, 0x0000, rtc) == Outcome(false, []);
    var second := UpdateDaylight(false, 0x0200, rtc');
    assert second == Outcome(true, [Write(HOURS, 3)]);
    assert Run(false, rs[1..]) == Outcome(true, [Write(HOURS, 3)] + []);
  }
}
