/**
 The nixie display path: the digit-code permutation of the board, arming a
 crossfade with `fadeto`, and the coarse ("slow") step of the display timer
 interrupt, which advances the blink counter, counts the crossfade down,
 picks the old or the new frame and lays the blink overlay over it.
 */
module Display {
  import opened Bits
  import opened Modes

  /**
   `swapbits(x)`: the decoder inputs are wired out of order, so bit 0 of the
   digit goes to bit 3, bit 1 stays, bit 2 goes to bit 0 and bit 3 to bit 2.
   The four single-bit terms do not overlap, so their OR is their sum.
   */
  function SwapBits(x: Byte): (r: Nibble)
    ensures Bit(r, 3) == Bit(x, 0) && Bit(r, 1) == Bit(x, 1)
    ensures Bit(r, 0) == Bit(x, 2) && Bit(r, 2) == Bit(x, 3)
  {
    BitsOfParts(Bit(x, 2), Bit(x, 1), Bit(x, 3), Bit(x, 0));
    Bit(x, 0) * 8 + Bit(x, 1) * 2 + Bit(x, 2) + Bit(x, 3) * 4
  }

  /** The wiring read backwards: the digit whose code the decoder receives as n */
  function UnswapBits(n: Nibble): (r: Nibble)
    ensures Bit(r, 0) == Bit(n, 3) && Bit(r, 1) == Bit(n, 1)
    ensures Bit(r, 2) == Bit(n, 0) && Bit(r, 3) == Bit(n, 2)
  {
    BitsOfParts(Bit(n, 3), Bit(n, 1), Bit(n, 0), Bit(n, 2));
    Bit(n, 3) + Bit(n, 1) * 2 + Bit(n, 0) * 4 + Bit(n, 2) * 8
  }

  /** On digit values `swapbits` is a bijection, and the blank code 0xf is left alone. */
  lemma SwapBitsBijective(n: Nibble)
    ensures UnswapBits(SwapBits(n)) == n && SwapBits(UnswapBits(n)) == n
    ensures SwapBits(15) == 15
  {
    UnswapSwap(n);
    SwapUnswap(n);
    SwapBlank();
  }

  lemma SwapBlank()
    ensures SwapBits(15) == 15
  {
    assert Bit(15, 0) == 1;
    assert Bit(15, 1) == 1;
    assert Bit(15, 2) == 1;
    assert Bit(15, 3) == 1;
  }

  lemma UnswapSwap(n: Nibble)
    ensures UnswapBits(SwapBits(n)) == n
  {
    SameBits(UnswapBits(SwapBits(n)), n);
  }

  lemma SwapUnswap(n: Nibble)
    ensures SwapBits(UnswapBits(n)) == n
  {
    SameBits(SwapBits(UnswapBits(n)), n);
  }

  /** Two digit values with the same code are the same digit. */
  lemma SwapBitsInjective(a: Nibble, b: Nibble)
    requires SwapBits(a) == SwapBits(b)
    ensures a == b
  {
    SwapBitsBijective(a);
    SwapBitsBijective(b);
  }

  /** `getrawdigits(h1, h2, m1, m2)`: one permuted code per tube, h1 in the top nibble */
  function RawDigits(h1: Byte, h2: Byte, m1: Byte, m2: Byte): (r: Word)
    ensures NibbleAt(r, 3) == SwapBits(h1) && NibbleAt(r, 2) == SwapBits(h2)
    ensures NibbleAt(r, 1) == SwapBits(m1) && NibbleAt(r, 0) == SwapBits(m2)
  {
    Pack(SwapBits(h1), SwapBits(h2), SwapBits(m1), SwapBits(m2))
  }

  /** `getrawdigits_bcd(t)`: the four nibbles of t, each permuted in place */
  function RawDigitsBcd(t: Word): (r: Word)
    ensures forall i :: 0 <= i < 4 ==> NibbleAt(r, i) == SwapBits(NibbleAt(t, i))
  {
    RawDigits(NibbleAt(t, 3), NibbleAt(t, 2), NibbleAt(t, 1), NibbleAt(t, 0))
  }

  /** The display value a raw code word shows */
  function DigitsOf(raw: Word): Word {
    Pack(UnswapBits(NibbleAt(raw, 3)), UnswapBits(NibbleAt(raw, 2)),
         UnswapBits(NibbleAt(raw, 1)), UnswapBits(NibbleAt(raw, 0)))
  }

  /** The raw code word determines the display value: the permutation loses nothing. */
  lemma RawDigitsRoundTrip(t: Word)
    ensures DigitsOf(RawDigitsBcd(t)) == t
  {
    var r := RawDigitsBcd(t);
    assert NibbleAt(r, 0) == SwapBits(NibbleAt(t, 0));
    assert NibbleAt(r, 1) == SwapBits(NibbleAt(t, 1));
    assert NibbleAt(r, 2) == SwapBits(NibbleAt(t, 2));
    assert NibbleAt(r, 3) == SwapBits(NibbleAt(t, 3));
    SwapBitsBijective(NibbleAt(t, 0));
    SwapBitsBijective(NibbleAt(t, 1));
    SwapBitsBijective(NibbleAt(t, 2));
    SwapBitsBijective(NibbleAt(t, 3));
    PackNibbles(t);
  }

  /** An all-blank value stays all blank. */
  lemma RawDigitsBlank()
    ensures RawDigitsBcd(0xffff) == 0xffff
  {
    SwapBlank();
    assert NibbleAt(0xffff, 0) == 15;
    assert NibbleAt(0xffff, 1) == 15;
    assert NibbleAt(0xffff, 2) == 15;
    assert NibbleAt(0xffff, 3) == 15;
    assert RawDigitsBcd(0xffff) == Pack(15, 15, 15, 15);
  }

  /** The display variables of main.c */
  datatype Display = Display(
    time: Word,          // value shown at the end of the current fade
    timef: Word,         // value being faded to
    rawfadefrom: Word,   // codes faded from
    rawfadeto: Word,     // codes faded to
    blinkctr: Word,      // blink counter, in slow ticks
    fadeduty: Byte,      // eighths of the 32-tick cycle that still show the old frame, in quarters
    fadectr: Byte,       // position in the 32-tick crossfade cycle
    fadetime: Int16,     // slow ticks left in the fade; -1 requests a new fade
    digitsraw: Word)     // codes sent to the tubes

  /** Initial values of main.c: both frames all blank */
  const Initial := Display(0, 0, 0xffff, 0xffff, 0, 0, 0, 0, 0)

  /** The blink quarter-second thresholds, `bcq1`..`bcq3` */
  datatype Calibration = Calibration(bcq1: Word, bcq2: Word, bcq3: Word)

  /**
   The arithmetic of `calibrate_blinking`: n slow ticks were counted in one
   second; `2*n` and `3*n` are computed in 16-bit unsigned arithmetic.
   */
  function Calibrate(n: Word): (r: Calibration)
    ensures r.bcq1 < 16384 && r.bcq2 < 16384 && r.bcq3 < 16384
    ensures 3 * n < 65536 ==> r.bcq1 <= r.bcq2 <= r.bcq3 <= n
  {
    var x, y := ToWord(2 * n), ToWord(3 * n);
    assert x == 4 * (x / 4) + x % 4 && y == 4 * (y / 4) + y % 4 && n == 4 * (n / 4) + n % 4;
    assert 3 * n < 65536 ==> x == 2 * n && y == 3 * n;
    Calibration(n / 4, x / 4, y / 4)
  }

  /** Without wrap-around the thresholds are the first three quarters of a second, in order. */
  lemma CalibrateOrdered(n: Word)
    requires 3 * n < 65536
    ensures var c := Calibrate(n);
            c.bcq1 <= c.bcq2 <= c.bcq3 <= n
            && c.bcq1 == n / 4 && c.bcq2 == (2 * n) / 4 && c.bcq3 == (3 * n) / 4
  {
    var q1, q2, q3 := n / 4, (2 * n) / 4, (3 * n) / 4;
    assert ToWord(2 * n) == 2 * n && ToWord(3 * n) == 3 * n;
    assert n == 4 * q1 + n % 4;
    assert 2 * n == 4 * q2 + (2 * n) % 4;
    assert 3 * n == 4 * q3 + (3 * n) % 4;
  }

  /** `fadeto(t)`: request a crossfade to t */
  function FadeTo(d: Display, t: Word): (r: Display)
    ensures r.timef == t && r.rawfadeto == RawDigitsBcd(t) && r.fadetime == -1
    ensures r.(timef := d.timef, rawfadeto := d.rawfadeto, fadetime := d.fadetime) == d
  {
    d.(timef := t, rawfadeto := RawDigitsBcd(t), fadetime := -1)
  }

  /** `get_display_value()` */
  function GetDisplayValue(d: Display): Word {
    d.timef
  }

  /** The value last requested is the one reported back. */
  lemma FadeToGet(d: Display, t: Word)
    ensures GetDisplayValue(FadeTo(d, t)) == t
    ensures DigitsOf(FadeTo(d, t).rawfadeto) == t
  {
    RawDigitsRoundTrip(t);
  }

  /** `bcq2 << 1` in 16-bit unsigned arithmetic: the end of the blink period */
  function BlinkLimit(c: Calibration): Word {
    ToWord(c.bcq2 * 2)
  }

  /** `blinkctr++` followed by the reset past `bcq2 << 1` */
  function BlinkCount(ctr: Word, c: Calibration): (r: Word)
    ensures r <= BlinkLimit(c)
    ensures ctr < BlinkLimit(c) ==> r == ctr + 1
    ensures ctr >= BlinkLimit(c) ==> r == 0
  {
    var n := ToWord(ctr + 1);
    if n > BlinkLimit(c) then 0 else n
  }

  /** k counts from 0 reach k, and one more than the limit returns to 0. */
  lemma {:induction false} BlinkPeriod(c: Calibration, k: nat)
    requires k <= BlinkLimit(c)
    ensures BlinkCounts(0, c, k) == k
    ensures BlinkCounts(0, c, BlinkLimit(c) + 1) == 0
  {
    BlinkCountsUpTo(c, k);
    BlinkCountsUpTo(c, BlinkLimit(c));
  }

  lemma {:induction false} BlinkCountsUpTo(c: Calibration, k: nat)
    requires k <= BlinkLimit(c)
    ensures BlinkCounts(0, c, k) == k
  {
    if k > 0 {
      BlinkCountsUpTo(c, k - 1);
    }
  }

  /** k successive counts */
  function BlinkCounts(ctr: Word, c: Calibration, k: nat): Word {
    if k == 0 then ctr else BlinkCount(BlinkCounts(ctr, c, k - 1), c)
  }

  /**
   The blink overlay: while the counter is in the second half of its period,
   a blink mode without the suppression bit blanks the hour digits (0xff00),
   the minute digits (0x00ff) or all four.
   */
  function Overlay(frame: Word, blinkmode: Byte, ctr: Word, bcq2: Word): (r: Word)
    ensures !(BLINK_NONE < blinkmode <= BLINK_ALL && ctr > bcq2) ==> r == frame
    ensures blinkmode == BLINK_HH && ctr > bcq2 ==> r / 256 == 0xff && r % 256 == frame % 256
    ensures blinkmode == BLINK_MM && ctr > bcq2 ==> r / 256 == frame / 256 && r % 256 == 0xff
    ensures blinkmode == BLINK_ALL && ctr > bcq2 ==> r == 0xffff
  {
    if blinkmode != BLINK_NONE && blinkmode < BLINK_SUPPRESS && ctr > bcq2 then
      if blinkmode == BLINK_HH then OrHighByte(frame); BitOr(frame, 0xff00)
      else if blinkmode == BLINK_MM then OrLowByte(frame); BitOr(frame, 0x00ff)
      else if blinkmode == BLINK_ALL then OrAllOnes(frame); BitOr(frame, 0xffff)
      else frame
    else frame
  }

  /** Suppressing the blink mode switches the overlay off; releasing it switches it back. */
  lemma OverlaySuppressed(frame: Word, mode: Byte, ctr: Word, bcq2: Word)
    ensures Overlay(frame, Suppress(mode), ctr, bcq2) == frame
    ensures mode < BLINK_SUPPRESS ==> Overlay(frame, Release(Suppress(mode)), ctr, bcq2) == Overlay(frame, mode, ctr, bcq2)
  {
    SuppressRelease(mode);
  }

  /** A fade request: `fadetime == -1` starts a fade, or finishes at once without fading. */
  function Arm(d: Display, m: Modes): (r: Display)
    ensures d.fadetime != -1 ==> r == d
    ensures r.(fadetime := d.fadetime, fadeduty := d.fadeduty, fadectr := d.fadectr) == d
    ensures d.fadetime == -1 && FadeGet(m) == FADE_OFF ==> r.fadetime == 1 && r.fadeduty == 1
    ensures d.fadetime == -1 && FadeTimesValid(m)
            ==> FadeInvariant(r, m.fadetimeQuart)
                && r.fadetime == (if FadeGet(m) == FADE_OFF then 1 else m.fadetimeFull)
                && r.fadeduty == (if FadeGet(m) == FADE_OFF then 1 else 4)
    ensures d.fadetime == -1 && FadeGet(m) != FADE_OFF ==> r.fadectr == 0
  {
    if d.fadetime == -1 then
      if FadeGet(m) == FADE_OFF then d.(fadeduty := 1, fadetime := 1)
      else d.(fadetime := ToInt16(m.fadetimeFull), fadeduty := 4, fadectr := 0)
    else d
  }

  /**
   One tick of the countdown: fadetime drops by one, the old frame's duty
   drops by one at every quarter, and at zero the new frame becomes current.
   `fadetime % fadetime_quart` mixes int16_t with uint16_t, so it is taken unsigned.
   */
  function CountDown(d: Display, quart: Word): (r: Display)
    requires quart > 0
    ensures d.fadetime == 0 ==> r == d
    ensures r.timef == d.timef && r.rawfadeto == d.rawfadeto && r.blinkctr == d.blinkctr
    ensures r.time == (if d.fadetime == 1 then d.timef else d.time)
    ensures r.rawfadefrom == (if d.fadetime == 1 then d.rawfadeto else d.rawfadefrom)
    ensures d.fadetime > 0 ==> r.fadetime == d.fadetime - 1
  {
    if d.fadetime != 0 then
      var ft := ToInt16(d.fadetime - 1);
      var duty := if ToWord(ft) % quart == 0 then ToByte(d.fadeduty - 1) else d.fadeduty;
      if ft == 0 then
        d.(fadetime := ft, fadeduty := duty, fadectr := 0, time := d.timef, rawfadefrom := d.rawfadeto)
      else
        d.(fadetime := ft, fadeduty := duty)
    else d
  }

  /** The frame of the crossfade: the old codes for the first `fadeduty` eighths of the cycle */
  function Frame(d: Display): (r: Word)
    ensures r == d.rawfadefrom || r == d.rawfadeto
    ensures d.fadeduty == 0 ==> r == d.rawfadeto
  {
    if d.fadectr / 8 < d.fadeduty then d.rawfadefrom else d.rawfadeto
  }

  /** The outcome of a slow tick: the new variables and whether an auto-repeat is due */
  datatype Tick = Tick(display: Display, repeat: bool)

  /**
   The slow step of `ISR(TIMER0_OVF_vect)`, taken every 32nd timer overflow.
   The division by `fadetime_quart` needs a positive quarter, which the
   program sets with `fade_set` before it starts the timer.
   */
  function SlowTick(d: Display, m: Modes, c: Calibration): (r: Tick)
    requires m.fadetimeQuart > 0
    ensures r.display.blinkctr == BlinkCount(d.blinkctr, c) && r.display.blinkctr <= BlinkLimit(c)
    ensures r.repeat <==> BlinkmodeGet(m) != BLINK_NONE
                          && r.display.blinkctr in {c.bcq1, c.bcq2, c.bcq3, 1}
    ensures r.display.fadectr < 32
    ensures r.display.timef == d.timef && r.display.rawfadeto == d.rawfadeto
    ensures r.display.time == d.time || r.display.time == d.timef
    ensures r.display.rawfadefrom == d.rawfadefrom || r.display.rawfadefrom == d.rawfadeto
    ensures var e := CountDown(Arm(d.(blinkctr := r.display.blinkctr), m), m.fadetimeQuart);
            r.display.digitsraw == Overlay(Frame(e), BlinkmodeGet(m), r.display.blinkctr, c.bcq2)
  {
    var ctr := BlinkCount(d.blinkctr, c);
    var repeat := BlinkmodeGet(m) != BLINK_NONE && (ctr == c.bcq1 || ctr == c.bcq2 || ctr == c.bcq3 || ctr == 1);
    var e := CountDown(Arm(d.(blinkctr := ctr), m), m.fadetimeQuart);
    var shown := Overlay(Frame(e), BlinkmodeGet(m), ctr, c.bcq2);
    Tick(e.(fadectr := (e.fadectr + 1) % 32, digitsraw := shown), repeat)
  }

  /** n slow ticks with no new fade request in between */
  function Ticks(d: Display, m: Modes, c: Calibration, n: nat): Display
    requires m.fadetimeQuart > 0
    decreases n
  {
    if n == 0 then d else Ticks(SlowTick(d, m, c).display, m, c, n - 1)
  }

  /** The crossfade invariant: the old frame's duty is the number of quarters left, rounded up. */
  predicate FadeInvariant(d: Display, quart: Word)
    requires quart > 0
  {
    0 <= d.fadetime && d.fadeduty == (d.fadetime + quart - 1) / quart
  }

  /** One tick of a running fade keeps the invariant. */
  lemma FadeStep(d: Display, m: Modes, c: Calibration)
    requires m.fadetimeQuart > 0 && FadeInvariant(d, m.fadetimeQuart) && d.fadetime > 0
    ensures var e := SlowTick(d, m, c).display;
            FadeInvariant(e, m.fadetimeQuart) && e.fadetime == d.fadetime - 1
            && e.timef == d.timef && e.rawfadeto == d.rawfadeto
            && e.time == (if d.fadetime == 1 then d.timef else d.time)
            && e.rawfadefrom == (if d.fadetime == 1 then d.rawfadeto else d.rawfadefrom)
  {
    var ctr := BlinkCount(d.blinkctr, c);
    var d' := d.(blinkctr := ctr);
    assert Arm(d', m) == d';
    CountDownKeeps(d', m.fadetimeQuart);
    SlowTickFade(d, m, c);
  }

  /** The fade fields after a slow tick are those after arming and counting down. */
  lemma SlowTickFade(d: Display, m: Modes, c: Calibration)
    requires m.fadetimeQuart > 0
    ensures var r := SlowTick(d, m, c).display;
            var e := CountDown(Arm(d.(blinkctr := r.blinkctr), m), m.fadetimeQuart);
            r.fadetime == e.fadetime && r.fadeduty == e.fadeduty
            && r.time == e.time && r.rawfadefrom == e.rawfadefrom
  {
  }

  /** The countdown keeps the crossfade invariant. */
  lemma CountDownKeeps(d: Display, q: Word)
    requires q > 0 && FadeInvariant(d, q) && d.fadetime > 0
    ensures FadeInvariant(CountDown(d, q), q)
  {
    var ft := d.fadetime;
    assert ToInt16(ft - 1) == ft - 1 && ToWord(ft - 1) == ft - 1;
    DutyStep(ft, q);
  }

  /** Rounded-up quarters left: one fewer exactly when the step lands on a quarter boundary */
  lemma DutyStep(ft: int, q: int)
    requires q > 0 && ft > 0
    ensures (ft - 1 + q - 1) / q == (if (ft - 1) % q == 0 then (ft + q - 1) / q - 1 else (ft + q - 1) / q)
  {
    var a, b := (ft - 1) / q, (ft - 1) % q;
    if b == 0 {
      DivMod(ft - 1 + q - 1, q, a, q - 1);
      DivMod(ft + q - 1, q, a + 1, 0);
    } else {
      DivMod(ft - 1 + q - 1, q, a + 1, b - 1);
      DivMod(ft + q - 1, q, a + 1, b);
    }
  }

  /** A running fade reaches its end after exactly `fadetime` ticks. */
  lemma {:induction false} FadeRuns(d: Display, m: Modes, c: Calibration, k: nat)
    requires m.fadetimeQuart > 0 && FadeInvariant(d, m.fadetimeQuart) && k <= d.fadetime
    ensures var e := Ticks(d, m, c, k);
            FadeInvariant(e, m.fadetimeQuart) && e.fadetime == d.fadetime - k
            && e.timef == d.timef && e.rawfadeto == d.rawfadeto
            && e.time == (if k == d.fadetime && k > 0 then d.timef else d.time)
            && e.rawfadefrom == (if k == d.fadetime && k > 0 then d.rawfadeto else d.rawfadefrom)
    decreases k
  {
    if k > 0 {
      FadeStep(d, m, c);
      FadeRuns(SlowTick(d, m, c).display, m, c, k - 1);
    }
  }

  /**
   A fade requested with fading on takes exactly `fadetime_full` slow ticks:
   before that the countdown has not ended, afterwards the new value is
   current, the old frame is gone and its duty is zero.
   */
  lemma FadeCompletes(d: Display, m: Modes, c: Calibration, k: nat)
    requires d.fadetime == -1 && FadeGet(m) != FADE_OFF && FadeTimesValid(m)
    requires 0 < k < m.fadetimeFull
    ensures Ticks(d, m, c, k).fadetime != 0
    ensures var e := Ticks(d, m, c, m.fadetimeFull);
            e.fadetime == 0 && e.fadeduty == 0
            && e.time == d.timef && e.rawfadefrom == d.rawfadeto && e.rawfadeto == d.rawfadeto
  {
    FadeAfterRequest(d, m, c, k);
    FadeAfterRequest(d, m, c, m.fadetimeFull);
  }

  /** The state k ticks after a request, for k up to the fade duration */
  lemma FadeAfterRequest(d: Display, m: Modes, c: Calibration, k: nat)
    requires d.fadetime == -1 && FadeGet(m) != FADE_OFF && FadeTimesValid(m)
    requires 0 < k <= m.fadetimeFull
    ensures var e := Ticks(d, m, c, k);
            FadeInvariant(e, m.fadetimeQuart) && e.fadetime == m.fadetimeFull - k
            && (k < m.fadetimeFull ==> e.fadetime != 0)
            && (k == m.fadetimeFull ==>
                  e.fadetime == 0 && e.fadeduty == 0
                  && e.time == d.timef && e.rawfadefrom == d.rawfadeto && e.rawfadeto == d.rawfadeto)
  {
    var d1 := SlowTick(d, m, c).display;
    FadeStarts(d, m, c);
    assert Ticks(d, m, c, k) == Ticks(d1, m, c, k - 1);
    FadeRuns(d1, m, c, k - 1);
    if k == m.fadetimeFull {
      DutyAtZero(Ticks(d1, m, c, k - 1), m.fadetimeQuart);
    }
  }

  /** When the countdown is at zero the old frame has no duty left. */
  lemma DutyAtZero(e: Display, q: Word)
    requires q > 0 && FadeInvariant(e, q) && e.fadetime == 0
    ensures e.fadeduty == 0
  {
    DivMod(q - 1, q, 0, q - 1);
  }

  /** The first tick after a request arms the countdown and takes one step of it. */
  lemma FadeStarts(d: Display, m: Modes, c: Calibration)
    requires d.fadetime == -1 && FadeGet(m) != FADE_OFF && FadeTimesValid(m)
    ensures var d1 := SlowTick(d, m, c).display;
            d1.fadetime == m.fadetimeFull - 1 && FadeInvariant(d1, m.fadetimeQuart)
            && d1.timef == d.timef && d1.rawfadeto == d.rawfadeto
  {
    var q := m.fadetimeQuart;
    var d1 := SlowTick(d, m, c).display;
    var armed := Arm(d.(blinkctr := d1.blinkctr), m);
    assert armed.fadetime == m.fadetimeFull && armed.fadeduty == 4;
    SlowTickFade(d, m, c);
    assert d1.fadetime == m.fadetimeFull - 1;
    assert (m.fadetimeFull - 1) % q != 0;
  }

  /** With fading off a request completes in a single tick. */
  lemma FadeOffCompletes(d: Display, m: Modes, c: Calibration)
    requires d.fadetime == -1 && FadeGet(m) == FADE_OFF && m.fadetimeQuart > 0
    ensures var e := Ticks(d, m, c, 1);
            e.fadetime == 0 && e.fadeduty == 0 && e.time == d.timef
            && e.rawfadefrom == d.rawfadeto && e.rawfadeto == d.rawfadeto
  {
    var r := SlowTick(d, m, c).display;
    assert Ticks(d, m, c, 1) == r;
    var armed := Arm(d.(blinkctr := r.blinkctr), m);
    assert armed.fadetime == 1 && armed.fadeduty == 1;
    DivMod(ToWord(0), m.fadetimeQuart, 0, 0);
    SlowTickFade(d, m, c);
  }

  /** Once a fade has ended, every tick shows the new codes, under the blink overlay. */
  lemma SettledShowsTarget(d: Display, m: Modes, c: Calibration)
    requires m.fadetimeQuart > 0 && d.fadetime == 0 && d.fadeduty == 0
    ensures var r := SlowTick(d, m, c).display;
            r.digitsraw == Overlay(d.rawfadeto, BlinkmodeGet(m), r.blinkctr, c.bcq2)
            && r.fadetime == 0 && r.fadeduty == 0
  {
  }
}
