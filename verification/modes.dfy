/**
 The mode registers of the clock: fade speed, dot mode, display mode, blink
 mode and power-saving mode, with the operations that set and cycle them.
 */
module Modes {
  import opened Bits

  /** Fade modes (`_fademode`) and the fade durations in slow ticks */
  const FADE_OFF: Byte := 0
  const FADE_ON: Byte := 1
  const FADE_SLOW: Byte := 2
  const FADETIME: Word := 128
  const FADETIME_S: Word := 256

  /** Dot modes (`_dotmode`) */
  const DOT_BLINK: Byte := 0
  const DOT_ON: Byte := 1
  const DOT_OFF: Byte := 2

  /** Display modes (`_displaymode`) */
  const HHMM: Byte := 0
  const MMSS: Byte := 1
  const VOLTAGE: Byte := 2
  const NDISPLAYMODES := 3

  /** Blink modes (`_blinkmode`); BLINK_SUPPRESS is OR-ed onto one of the others */
  const BLINK_NONE: Byte := 0
  const BLINK_HH: Byte := 1
  const BLINK_MM: Byte := 2
  const BLINK_ALL: Byte := 3
  const BLINK_SUPPRESS: Byte := 0x80

  /** Power-saving modes (`_savinmode`) */
  const WASTE: Byte := 0
  const SAVE: Byte := 1
  const SAVENIGHT: Byte := 2

  /** The module's static variables */
  datatype Modes = Modes(
    fademode: Byte,
    fadetimeFull: Word,
    fadetimeQuart: Word,
    dotmode: Byte,
    displayMode: Byte,
    blinkmode: Byte,
    savingmode: Byte)

  /** Static initialisation: every variable is zero, which is HHMM, WASTE and no blinking. */
  const Initial := Modes(0, 0, 0, 0, HHMM, BLINK_NONE, WASTE)

  /** The two fade durations `fade_set` installs, each a whole number of quarters */
  predicate FadeTimesValid(m: Modes) {
    (m.fadetimeFull == FADETIME && m.fadetimeQuart == FADETIME / 4)
    || (m.fadetimeFull == FADETIME_S && m.fadetimeQuart == FADETIME_S / 4)
  }

  /** `fade_set(mode)`; FADE_SLOW installs the slow duration but records FADE_ON. */
  function FadeSet(m: Modes, mode: Byte): (r: Modes)
    ensures mode == FADE_ON ==> r == m.(fademode := FADE_ON, fadetimeFull := 128, fadetimeQuart := 32)
    ensures mode == FADE_SLOW ==> r == m.(fademode := FADE_ON, fadetimeFull := 256, fadetimeQuart := 64)
    ensures mode == FADE_OFF ==> r == m.(fademode := FADE_OFF)
    ensures mode > FADE_SLOW ==> r == m
    ensures mode == FADE_ON || mode == FADE_SLOW ==> FadeTimesValid(r)
    ensures FadeTimesValid(m) ==> FadeTimesValid(r)
  {
    if mode == FADE_ON then m.(fadetimeFull := FADETIME, fadetimeQuart := FADETIME / 4, fademode := FADE_ON)
    else if mode == FADE_OFF then m.(fademode := FADE_OFF)
    else if mode == FADE_SLOW then m.(fadetimeFull := FADETIME_S, fadetimeQuart := FADETIME_S / 4, fademode := FADE_ON)
    else m
  }

  /** `fade_get()` */
  function FadeGet(m: Modes): Byte {
    m.fademode
  }

  /** `fade_get` reports FADE_ON or FADE_OFF only: FADE_SLOW is never recorded. */
  lemma FadeGetNeverSlow(m: Modes, mode: Byte)
    requires FadeGet(m) != FADE_SLOW
    ensures FadeGet(FadeSet(m, mode)) != FADE_SLOW
    ensures FadeGet(FadeSet(m, mode)) == (if mode == FADE_OFF then FADE_OFF
                                          else if mode <= FADE_SLOW then FADE_ON
                                          else FadeGet(m))
  {
  }

  /** A quarter is a positive whole fraction of the full fade, whatever the history of `fade_set` calls. */
  lemma {:induction false} FadeSetSequence(m: Modes, modes: seq<Byte>)
    requires FadeTimesValid(m) || exists i :: 0 <= i < |modes| && (modes[i] == FADE_ON || modes[i] == FADE_SLOW)
    ensures var r := FadeSetAll(m, modes);
            FadeTimesValid(r) && r.fadetimeFull == 4 * r.fadetimeQuart && r.fadetimeQuart > 0
    decreases |modes|
  {
    if modes != [] {
      if !FadeTimesValid(FadeSet(m, modes[0])) {
        var i :| 0 <= i < |modes| && (modes[i] == FADE_ON || modes[i] == FADE_SLOW);
        assert i != 0;
        assert modes[1..][i - 1] == modes[i];
      }
      FadeSetSequence(FadeSet(m, modes[0]), modes[1..]);
    }
  }

  /** Successive `fade_set` calls */
  function FadeSetAll(m: Modes, modes: seq<Byte>): Modes
    decreases |modes|
  {
    if modes == [] then m else FadeSetAll(FadeSet(m, modes[0]), modes[1..])
  }

  /** `dotmode_set(mode)` */
  function DotmodeSet(m: Modes, mode: Byte): (r: Modes)
    ensures r.dotmode == mode && r.(dotmode := m.dotmode) == m
  {
    m.(dotmode := mode)
  }

  /** The fade and dot settings that belong to each display mode */
  predicate Companions(m: Modes) {
    match m.displayMode
    case 0 => m.fademode == FADE_ON && m.fadetimeFull == 256 && m.fadetimeQuart == 64 && m.dotmode == DOT_BLINK
    case 1 => m.fademode == FADE_ON && m.fadetimeFull == 128 && m.fadetimeQuart == 32 && m.dotmode == DOT_BLINK
    case 2 => m.fademode == FADE_OFF && m.fadetimeFull == 128 && m.fadetimeQuart == 32 && m.dotmode == DOT_OFF
    case _ => false
  }

  /** `mode_next()`: the next display mode, with its fade speed and dot mode */
  function ModeNext(m: Modes): (r: Modes)
    ensures r.displayMode < NDISPLAYMODES
    ensures r.displayMode == (m.displayMode + 1) % NDISPLAYMODES
    ensures r.displayMode == HHMM ==> r == FadeSet(m, FADE_SLOW).(displayMode := HHMM, dotmode := DOT_BLINK)
    ensures r.displayMode == MMSS ==> r == FadeSet(m, FADE_ON).(displayMode := MMSS, dotmode := DOT_BLINK)
    ensures r.displayMode == VOLTAGE ==> r == m.(displayMode := VOLTAGE, fademode := FADE_OFF, dotmode := DOT_OFF)
    ensures r.blinkmode == m.blinkmode && r.savingmode == m.savingmode
    ensures Companions(m) ==> Companions(r)
  {
    var dm := (m.displayMode + 1) % NDISPLAYMODES;
    var m := m.(displayMode := dm);
    if dm == HHMM then DotmodeSet(FadeSet(m, FADE_SLOW), DOT_BLINK)
    else if dm == MMSS then DotmodeSet(FadeSet(m, FADE_ON), DOT_BLINK)
    else DotmodeSet(FadeSet(m, FADE_OFF), DOT_OFF)
  }

  /** `mode_get()` */
  function ModeGet(m: Modes): Byte {
    m.displayMode
  }

  /** Three `mode_next` calls come back to the same state: HHMM, MMSS, VOLTAGE, HHMM. */
  lemma ModeCycle(m: Modes)
    requires Companions(m)
    ensures ModeGet(ModeNext(m)) == (ModeGet(m) + 1) % 3
    ensures ModeNext(ModeNext(ModeNext(m))) == m
  {
  }

  /** `blinkmode_set(mode)` */
  function BlinkmodeSet(m: Modes, mode: Byte): (r: Modes)
    ensures BlinkmodeGet(r) == mode && r.(blinkmode := m.blinkmode) == m
  {
    m.(blinkmode := mode)
  }

  /** `blinkmode_get()` */
  function BlinkmodeGet(m: Modes): Byte {
    m.blinkmode
  }

  /** `mode | 0200`: the blink mode with blinking suppressed */
  function Suppress(mode: Byte): (r: Byte)
    ensures r == BLINK_SUPPRESS + mode % 128
  {
    OrBit7(mode);
    BitOr(mode, 0x80)
  }

  /** `mode & 0177`: the blink mode with the suppression bit cleared */
  function Release(mode: Byte): (r: Byte)
    ensures r < BLINK_SUPPRESS && (mode < BLINK_SUPPRESS ==> r == mode)
  {
    mode % 128
  }

  /** The suppression bit is disjoint from every blink mode: releasing undoes suppressing. */
  lemma SuppressRelease(mode: Byte)
    ensures Release(Suppress(mode)) == Release(mode)
    ensures mode < BLINK_SUPPRESS ==> Release(Suppress(mode)) == mode
    ensures Suppress(Suppress(mode)) == Suppress(mode)
  {
  }

  /** `savingmode_set(s)` */
  function SavingmodeSet(m: Modes, s: Byte): (r: Modes)
    ensures SavingmodeGet(r) == s && r.(savingmode := m.savingmode) == m
  {
    m.(savingmode := s)
  }

  /** `savingmode_get()` */
  function SavingmodeGet(m: Modes): Byte {
    m.savingmode
  }

  /** `savingmode_next()` */
  function SavingmodeNext(m: Modes): (r: Modes)
    ensures SavingmodeGet(r) <= SAVENIGHT
    ensures SavingmodeGet(m) == WASTE ==> SavingmodeGet(r) == SAVE
    ensures SavingmodeGet(m) == SAVE ==> SavingmodeGet(r) == SAVENIGHT
    ensures SavingmodeGet(m) == SAVENIGHT ==> SavingmodeGet(r) == WASTE
    ensures r.(savingmode := m.savingmode) == m
  {
    SavingmodeSet(m, (SavingmodeGet(m) + 1) % 3)
  }

  /** Three `savingmode_next` calls return to the starting mode. */
  lemma SavingCycle(m: Modes)
    requires SavingmodeGet(m) <= SAVENIGHT
    ensures SavingmodeNext(SavingmodeNext(SavingmodeNext(m))) == m
  {
  }
}
