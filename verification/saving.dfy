/**
 Tube preservation (`savingmode_keep`): the power-saving mode and the time of
 day choose the converter setpoint and how much of each digit's time slot is
 blanked (`halfbright`: 0 normal, 1 dark, 2 darkest).
 */
module Saving {
  import opened Bits
  import opened Bcd
  import opened Modes
  import opened Voltage

  /** The regulator and the brightness level after the call */
  datatype Kept = Kept(pump: Pump, halfbright: Byte)

  /** `savingmode_keep(hhmm)` with the saving mode, regulator and brightness passed in */
  function SavingmodeKeep(m: Modes, p: Pump, halfbright: Byte, hhmm: Word): (r: Kept)
    ensures SavingmodeGet(m) > SAVENIGHT ==> r == Kept(p, halfbright)
    ensures SavingmodeGet(m) <= SAVENIGHT ==> r.pump == VoltageSet(p, r.pump.setpoint)
    ensures SavingmodeGet(m) <= SAVENIGHT
            ==> (r.halfbright <= 2
                 && (r.halfbright == 0 <==> r.pump.setpoint == VOLTAGE_WASTE)
                 && (r.halfbright > 0 <==> r.pump.setpoint == VOLTAGE_SAVE))
    ensures SavingmodeGet(m) == WASTE ==> r.halfbright == 0
    ensures SavingmodeGet(m) == SAVE ==> r.halfbright == 1
    ensures SavingmodeGet(m) == SAVENIGHT ==>
            r.halfbright == (if 0x0100 < hhmm < 0x0700 then 2 else if hhmm < 0x0800 then 1 else 0)
  {
    match SavingmodeGet(m)
    case 2 =>
      if hhmm > 0x0100 && hhmm < 0x0700 then Kept(VoltageSet(p, VOLTAGE_SAVE), 2)
      else if hhmm < 0x0800 then Kept(VoltageSet(p, VOLTAGE_SAVE), 1)
      else Kept(VoltageSet(p, VOLTAGE_WASTE), 0)
    case 1 => Kept(VoltageSet(p, VOLTAGE_SAVE), 1)
    case 0 => Kept(VoltageSet(p, VOLTAGE_WASTE), 0)
    case _ => Kept(p, halfbright)
  }

  /** A valid clock reading hh:mm in BCD */
  predicate ValidTime(h: Byte, mn: Byte) {
    IsBcd(h) && Value(h) < 24 && IsBcd(mn) && Value(mn) < 60
  }

  /**
   The night schedule by the clock: darkest from 01:01 to 06:59, dark from
   00:00 to 01:00 and from 07:00 to 07:59, normal from 08:00.
   */
  lemma NightSchedule(m: Modes, p: Pump, halfbright: Byte, h: Byte, mn: Byte)
    requires SavingmodeGet(m) == SAVENIGHT && ValidTime(h, mn)
    ensures var r := SavingmodeKeep(m, p, halfbright, MakeTime(h, mn));
            (r.halfbright == 2 <==> 1 <= Value(h) < 7 && !(Value(h) == 1 && Value(mn) == 0))
            && (r.halfbright == 1 <==> Value(h) == 0 || (Value(h) == 1 && Value(mn) == 0) || Value(h) == 7)
            && (r.halfbright == 0 <==> Value(h) >= 8)
  {
    var t := MakeTime(h, mn);
    OrderAgrees(h, 0x01);
    OrderAgrees(h, 0x07);
    OrderAgrees(h, 0x08);
    OrderAgrees(mn, 0x00);
    assert t > 0x0100 <==> h > 0x01 || (h == 0x01 && mn > 0);
    assert t < 0x0700 <==> h < 0x07;
    assert t < 0x0800 <==> h < 0x08;
  }
}
