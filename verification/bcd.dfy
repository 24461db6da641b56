/**
 Packed-decimal (BCD) bytes: one decimal digit per nibble. Conversions from
 BCD to binary, the BCD increment used by the time editor and the three-digit
 formatter used by the voltmeter readout.
 */
module Bcd {
  import opened Bits

  /** Both nibbles hold a decimal digit. */
  predicate IsBcd(x: Byte) {
    x % 16 <= 9 && x / 16 <= 9
  }

  /** The number a byte reads as when each nibble is taken as a decimal digit */
  function Value(x: Byte): nat {
    (x / 16) * 10 + x % 16
  }

  /** The BCD byte of a number below 100 */
  function Encode(n: nat): (x: Byte)
    requires n < 100
    ensures IsBcd(x) && Value(x) == n
  {
    DivMod((n / 10) * 16 + n % 10, 16, n / 10, n % 10);
    (n / 10) * 16 + n % 10
  }

  /** Encode inverts Value on BCD bytes. */
  lemma EncodeValue(x: Byte)
    requires IsBcd(x)
    ensures Value(x) < 100 && Encode(Value(x)) == x
  {
    DivMod(Value(x), 10, x / 16, x % 16);
  }

  /** On BCD bytes the byte order is the numeric order. */
  lemma OrderAgrees(x: Byte, y: Byte)
    requires IsBcd(x) && IsBcd(y)
    ensures x < y <==> Value(x) < Value(y)
    ensures x == y <==> Value(x) == Value(y)
  {
    DivMod(x, 16, x / 16, x % 16);
    DivMod(y, 16, y / 16, y % 16);
  }

  /**
   `_frombcd(x)`: `(x & 017) + ((x & 0160) >> 4) * 10`. The tens mask 0160
   keeps only bits 4..6, so bit 7 of the tens digit is dropped.
   */
  function FromBcd(x: Byte): (r: Byte)
    ensures x < 0x80 <==> r == Value(x)
    ensures IsBcd(x) && x < 0x80 ==> r < 80
  {
    x % 16 + ((x / 16) % 8) * 10
  }

  /** Any byte decodes to at most 85, a year `day_of_week` accepts. */
  lemma FromBcdBound(x: Byte)
    ensures FromBcd(x) <= 85
  {
    DivMod(x / 16, 8, x / 128, (x / 16) % 8);
  }

  /** From 0x80 up the decoding is 80 below the decimal reading. */
  lemma FromBcdAbove(x: Byte)
    requires x >= 0x80
    ensures FromBcd(x) + 80 == Value(x)
  {
    DivMod(x / 16, 8, 1, x / 16 - 8);
  }

  /** The decoding is exact on BCD bytes up to 0x79 and off by 80 above. */
  lemma FromBcdDropsBit7()
    ensures FromBcd(0x79) == 79
    ensures FromBcd(0x80) == 0 && FromBcd(0x99) == 19
  {
  }

  /**
   `bcd_increment`: add one to the byte, carry a units nibble of 10..15 into
   the tens nibble, and clear the byte once the tens nibble reaches 10.
   */
  function BcdIncrement(x: Byte): (r: Byte)
    ensures IsBcd(r)
    ensures IsBcd(x) ==> Value(r) == (Value(x) + 1) % 100
  {
    var a := ToByte(x + 1);
    var b := if a % 16 >= 0x0a then ToByte(a + (0x10 - 0x0a)) else a;
    var r := if b >= 0xa0 then 0 else b;
    IncrementCases(x, a, b, r);
    r
  }

  lemma IncrementCases(x: Byte, a: Byte, b: Byte, r: Byte)
    requires a == ToByte(x + 1)
    requires b == if a % 16 >= 0x0a then ToByte(a + 6) else a
    requires r == if b >= 0xa0 then 0 else b
    ensures IsBcd(r)
    ensures IsBcd(x) ==> Value(r) == (Value(x) + 1) % 100
  {
    IncrementIsBcd(a, b, r);
    if IsBcd(x) {
      IncrementValue(x, a, b, r);
    }
  }

  lemma IncrementIsBcd(a: Byte, b: Byte, r: Byte)
    requires b == if a % 16 >= 0x0a then ToByte(a + 6) else a
    requires r == if b >= 0xa0 then 0 else b
    ensures IsBcd(r)
  {
    var t, u := a / 16, a % 16;
    assert a == t * 16 + u;
    if u >= 0x0a {
      if a < 0xfa {
        assert b == a + 6;
        DivMod(b, 16, t + 1, u - 10);
      } else {
        assert b == a + 6 - 256 && b < 6;
        DivMod(b, 16, 0, b);
      }
    } else {
      assert b == a;
    }
    if r != 0 {
      assert r == b && b < 0xa0;
    }
  }

  lemma IncrementValue(x: Byte, a: Byte, b: Byte, r: Byte)
    requires IsBcd(x)
    requires a == ToByte(x + 1)
    requires b == if a % 16 >= 0x0a then ToByte(a + 6) else a
    requires r == if b >= 0xa0 then 0 else b
    ensures Value(r) == (Value(x) + 1) % 100
  {
    var t, u := x / 16, x % 16;
    assert x == t * 16 + u;
    if u < 9 {
      IncrementUnit(t, u);
      assert a == x + 1 && a % 16 == u + 1;
      assert b == a && r == a;
    } else if t < 9 {
      IncrementTen(t);
      assert a == x + 1 && a % 16 == 10;
      assert b == a + 6 && r == b;
    } else {
      assert x == 0x99 && a == 0x9a && b == 0xa0 && r == 0;
      DivMod(Value(x) + 1, 100, 1, 0);
    }
  }

  /** The increment of t u with a units digit below 9 bumps the units digit. */
  lemma IncrementUnit(t: int, u: int)
    requires 0 <= t <= 9 && 0 <= u < 9
    ensures var x := t * 16 + u;
            var a := ToByte(x + 1);
            a == x + 1 && a % 16 == u + 1 && a < 0xa0
            && Value(a) == Value(x) + 1 && Value(a) == (Value(x) + 1) % 100
  {
    var x := t * 16 + u;
    DivMod(x, 16, t, u);
    DivMod(x + 1, 16, t, u + 1);
    DivMod(Value(x) + 1, 100, 0, Value(x) + 1);
  }

  /** The increment of t 9 with t below 9 carries into the tens digit. */
  lemma IncrementTen(t: int)
    requires 0 <= t < 9
    ensures var x := t * 16 + 9;
            var a := ToByte(x + 1);
            a == x + 1 && a % 16 == 10 && a + 6 < 0xa0
            && Value(a + 6) == Value(x) + 1 && Value(a + 6) == (Value(x) + 1) % 100
  {
    var x := t * 16 + 9;
    DivMod(x, 16, t, 9);
    DivMod(x + 1, 16, t, 10);
    DivMod(x + 7, 16, t + 1, 0);
    DivMod(Value(x) + 1, 100, 0, Value(x) + 1);
  }

  /** n successive increments */
  function IncrementTimes(x: Byte, n: nat): Byte
  {
    if n == 0 then x else BcdIncrement(IncrementTimes(x, n - 1))
  }

  /** Increments count modulo 100: a hundred of them come back to the start. */
  lemma {:induction false} IncrementCounts(x: Byte, n: nat)
    requires IsBcd(x)
    ensures IsBcd(IncrementTimes(x, n))
    ensures Value(IncrementTimes(x, n)) == (Value(x) + n) % 100
  {
    if n > 0 {
      IncrementCounts(x, n - 1);
      ModAdd(Value(x) + n - 1, 1, 100);
    }
  }

  lemma IncrementCycle(x: Byte, n: nat)
    requires IsBcd(x) && n % 100 == 0
    ensures IncrementTimes(x, n) == x
  {
    var y := IncrementTimes(x, n);
    IncrementCounts(x, n);
    ModAdd(n, Value(x), 100);
    EncodeValue(x);
    DivMod(Value(x), 100, 0, Value(x));
    assert Value(y) == Value(x);
    OrderAgrees(x, y);
  }

  /**
   `tobcd16(x)`: units in bits 0..3, tens in bits 4..7, `(x / 100) % 100` in
   bits 8 and up, all OR-ed with 0xf000.
   */
  function ToBcd16(x: Word): (r: Word)
    ensures NibbleAt(r, 3) == 0xf
    ensures x < 1000 ==> NibbleAt(r, 2) == x / 100 && NibbleAt(r, 1) == (x / 10) % 10
                         && NibbleAt(r, 0) == x % 10
  {
    var units := x % 10;
    var tens := (x / 10) % 10;
    var hundreds := (x / 100) % 100;
    ToBcd16Fields(units, tens, hundreds);
    HundredsDigit(x);
    BitOr(BitOr(BitOr(units, tens * 16), hundreds * 256), 0xf000)
  }

  lemma HundredsDigit(x: Word)
    ensures x < 1000 ==> ((x / 100) % 100) % 16 == x / 100
  {
  }

  lemma ToBcd16Fields(u: nat, t: nat, h: nat)
    requires u < 10 && t < 10 && h < 100
    ensures BitOr(BitOr(BitOr(u, t * 16), h * 256), 0xf000)
            == Pack(15, h % 16, t, u)
  {
    var v := t * 16 + u;
    TensUnits(u, t);
    HundredsField(h, v);
    var w := h * 256 + v;
    var low := (h % 16) * 256 + v;
    DivMod(w, 4096, h / 16, low);
    OrTopNibble(w);
  }

  lemma TensUnits(u: nat, t: nat)
    requires u < 10 && t < 10
    ensures BitOr(u, t * 16) == t * 16 + u < 256
  {
    Pow2Values();
    OrDisjoint(t, u, 4);
    OrComm(u, t * 16);
  }

  lemma HundredsField(h: nat, v: nat)
    requires h < 100 && v < 256
    ensures BitOr(v, h * 256) == h * 256 + v < 65536
  {
    Pow2Values();
    OrDisjoint(h, v, 8);
    OrComm(v, h * 256);
  }
}
