/**
 The boost-converter regulator: each ADC conversion is folded into a running
 average, and the converter's pulse width is switched fully on or off by
 comparing that average with the setpoint.
 */
module Voltage {
  import opened Bits
  import opened Bcd

  /** Setpoints in ADC units: about 199 V and about 180 V */
  const VOLTAGE_WASTE: Word := 405
  const VOLTAGE_SAVE: Word := 367

  /** The pulse width `ocr1a_reload` used while the voltage is below the setpoint */
  const OCR1A_RELOAD: Word := 121

  /** A 10-bit ADC conversion result */
  type Adc = a: int | 0 <= a < 1024

  /** The regulator variables and the timer and ADC registers it drives */
  datatype Pump = Pump(
    voltage: Word,
    setpoint: Word,
    ocr1a: Word,     // pulse width of the converter switch
    ocr1b: Word,
    icr1: Word,      // PWM period
    adcOn: bool)     // conversions and their interrupt are enabled

  /** `voltage_set(setpoint)` */
  function VoltageSet(p: Pump, setpoint: Word): (r: Pump)
    ensures SetpointGet(r) == setpoint && r.(setpoint := p.setpoint) == p
  {
    p.(setpoint := setpoint)
  }

  /** `voltage_setpoint_get()` */
  function SetpointGet(p: Pump): Word {
    p.setpoint
  }

  /**
   `ISR(ADC_vect)`: average the sample into the voltage (the sum is taken in
   16-bit unsigned arithmetic) and switch the pulse on below the setpoint and
   off otherwise. With conversions disabled the interrupt does not run.
   */
  function Sample(p: Pump, adc: Adc): (r: Pump)
    ensures !p.adcOn ==> r == p
    ensures p.adcOn ==> r.voltage == ToWord(p.voltage + adc) / 2
    ensures p.adcOn ==> (r.ocr1a == OCR1A_RELOAD <==> r.voltage < r.setpoint)
    ensures p.adcOn ==> (r.ocr1a == 0 <==> r.voltage >= r.setpoint)
    ensures r.setpoint == p.setpoint && r.ocr1b == p.ocr1b && r.icr1 == p.icr1 && r.adcOn == p.adcOn
    ensures p.voltage < 1024 ==> r.voltage < 1024
    ensures p.adcOn && p.voltage < 1024
            ==> ((r.voltage >= p.voltage || r.voltage >= adc) && (r.voltage <= p.voltage || r.voltage <= adc))
  {
    if p.adcOn then
      var v := ToWord(p.voltage + adc) / 2;
      p.(voltage := v, ocr1a := if v < p.setpoint then OCR1A_RELOAD else 0)
    else p
  }

  /** n conversions that all read the same value */
  function Samples(p: Pump, adc: Adc, n: nat): Pump
    decreases n
  {
    if n == 0 then p else Samples(Sample(p, adc), adc, n - 1)
  }

  /** The largest distance left above the sample after n halvings (rounded down) */
  function Above(n: nat): nat {
    if n == 0 then 1023 else Above(n - 1) / 2
  }

  /** The largest distance left below the sample after n halvings (rounded up) */
  function Below(n: nat): nat {
    if n == 0 then 1023 else (Below(n - 1) + 1) / 2
  }

  /** Each conversion halves the distance to a steady sample and never crosses it. */
  lemma {:induction false} Approach(p: Pump, adc: Adc, n: nat)
    requires p.adcOn && p.voltage < 1024
    ensures Samples(p, adc, n).adcOn && Samples(p, adc, n).setpoint == p.setpoint
    ensures var v := Samples(p, adc, n).voltage;
            v < 1024
            && (p.voltage >= adc ==> adc <= v <= adc + Above(n))
            && (p.voltage < adc ==> adc - Below(n) <= v < adc)
    decreases n
  {
    if n > 0 {
      Approach(p, adc, n - 1);
      var q := Samples(p, adc, n - 1);
      SamplesLast(p, adc, n);
      SampleHalves(q, adc);
      ApproachStep(q.voltage, adc, n);
    }
  }

  /** With a 10-bit average the 16-bit sum does not wrap. */
  lemma SampleHalves(q: Pump, adc: Adc)
    requires q.adcOn && q.voltage < 1024
    ensures var r := Sample(q, adc);
            r.voltage == (q.voltage + adc) / 2 && r.adcOn && r.setpoint == q.setpoint
  {
  }

  /** One halving, as plain arithmetic on the running average */
  lemma ApproachStep(v: int, adc: Adc, n: nat)
    requires n > 0 && 0 <= v < 1024
    requires v >= adc ==> v <= adc + Above(n - 1)
    requires v < adc ==> adc - Below(n - 1) <= v
    ensures var w := (v + adc) / 2;
            w < 1024
            && (v >= adc ==> adc <= w <= adc + Above(n))
            && (v < adc ==> adc - Below(n) <= w < adc)
  {
  }

  /** The last of n conversions */
  lemma {:induction false} SamplesLast(p: Pump, adc: Adc, n: nat)
    requires n > 0
    ensures Samples(p, adc, n) == Sample(Samples(p, adc, n - 1), adc)
    decreases n
  {
    if n > 1 {
      SamplesLast(Sample(p, adc), adc, n - 1);
    }
  }

  /** Ten halvings exhaust the 10-bit range. */
  lemma {:induction false} Settled(n: nat)
    requires n >= 10
    ensures Above(n) == 0 && Below(n) == 1
    decreases n
  {
    if n > 10 {
      Settled(n - 1);
    } else {
      assert Above(5) == 31 && Below(5) == 32;
    }
  }

  /**
   After ten conversions of a steady sample the average is the sample, or
   one below it when it approached from below.
   */
  lemma Converges(p: Pump, adc: Adc, n: nat)
    requires p.adcOn && p.voltage < 1024 && n >= 10
    ensures adc - 1 <= Samples(p, adc, n).voltage <= adc
  {
    Approach(p, adc, n);
    Settled(n);
  }

  /** A steady sample below the setpoint ends with the pulse on, and it stays on. */
  lemma PulseOnBelowSetpoint(p: Pump, adc: Adc, n: nat)
    requires p.adcOn && p.voltage < 1024 && adc < p.setpoint && n >= 10
    ensures Samples(p, adc, n).ocr1a == OCR1A_RELOAD
  {
    Converges(p, adc, n);
    SamplesLast(p, adc, n);
    Approach(p, adc, n - 1);
  }

  /** A steady sample above the setpoint ends with the pulse off, and it stays off. */
  lemma PulseOffAboveSetpoint(p: Pump, adc: Adc, n: nat)
    requires p.adcOn && p.voltage < 1024 && adc > p.setpoint && n >= 10
    ensures Samples(p, adc, n).ocr1a == 0
  {
    SamplesLast(p, adc, n);
    Approach(p, adc, n - 1);
    Converges(p, adc, n);
  }

  /** A sample equal to the setpoint, approached from below, keeps the pulse on for ever. */
  lemma StuckBelowSetpoint(p: Pump, n: nat)
    requires p.adcOn && p.voltage < p.setpoint < 1024 && n >= 10
    ensures Samples(p, p.setpoint, n).voltage == p.setpoint - 1
    ensures Samples(p, p.setpoint, n).ocr1a == OCR1A_RELOAD
  {
    Approach(p, p.setpoint, n);
    Settled(n);
    SamplesLast(p, p.setpoint, n);
    Approach(p, p.setpoint, n - 1);
  }

  /** `pump_nomoar()`: conversions off, period 255, both pulse widths zero */
  function PumpNomoar(p: Pump): (r: Pump)
    ensures r.ocr1a == 0 && r.ocr1b == 0 && r.icr1 == 255 && !r.adcOn
    ensures r.voltage == p.voltage && r.setpoint == p.setpoint
  {
    p.(adcOn := false, icr1 := 255, ocr1a := 0, ocr1b := 0)
  }

  /** After `pump_nomoar` no conversion can switch the converter back on. */
  lemma NomoarIsFinal(p: Pump, adc: Adc, n: nat)
    ensures Samples(PumpNomoar(p), adc, n) == PumpNomoar(p)
  {
    if n > 0 {
      NomoarIsFinal(p, adc, n - 1);
    }
  }

  /** `voltage_getbcd()`: the voltage scaled to volts (1024 reads 500 V) as digits */
  function VoltageGetBcd(p: Pump): (r: Word)
    ensures NibbleAt(r, 3) == 0xf
    ensures p.voltage < 1024 ==> (p.voltage * 32) / 65 <= 503
    ensures p.voltage < 1024 ==> var volts := (p.voltage * 32) / 65;
            NibbleAt(r, 2) == volts / 100 && NibbleAt(r, 1) == (volts / 10) % 10
            && NibbleAt(r, 0) == volts % 10
  {
    VoltsBound(p.voltage);
    ToBcd16(ToWord(p.voltage * 32) / 65)
  }

  /** For a 10-bit voltage the scaling does not wrap and reads at most 503 V. */
  lemma VoltsBound(v: Word)
    ensures v < 1024 ==> ToWord(v * 32) == v * 32 && (v * 32) / 65 <= 503
  {
    var x := v * 32;
    assert x == 65 * (x / 65) + x % 65;
  }
}
