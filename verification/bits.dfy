/**
 Fixed-width integers of an 8-bit microcontroller, as bounded mathematical
 integers. Every C bit operation the model needs is spelled out with `/` and
 `%` on non-negative values, where Dafny's Euclidean operators agree with C.
 */
module Bits {

  /** uint8_t */
  type Byte = x: int | 0 <= x < 256

  /** uint16_t (and `unsigned int`, which is 16 bits wide on this target) */
  type Word = x: int | 0 <= x < 65536

  /** int16_t (and `int`) */
  type Int16 = x: int | -32768 <= x < 32768

  /** A 4-bit digit position value */
  type Nibble = x: int | 0 <= x < 16

  /** Truncation of an arbitrary integer to uint8_t */
  function ToByte(x: int): Byte { x % 256 }

  /** Truncation of an arbitrary integer to uint16_t (two's complement reinterpretation) */
  function ToWord(x: int): Word { x % 65536 }

  /** Conversion of an arbitrary integer to int16_t, wrapping as the target does */
  function ToInt16(x: int): Int16 {
    var u := x % 65536;
    if u < 32768 then u else u - 65536
  }

  /** Bit `i` of a non-negative number, for i in 0..7 */
  function Bit(x: nat, i: nat): (b: nat)
    requires i < 8
    ensures b < 2
  {
    match i
    case 0 => x % 2
    case 1 => (x / 2) % 2
    case 2 => (x / 4) % 2
    case 3 => (x / 8) % 2
    case 4 => (x / 16) % 2
    case 5 => (x / 32) % 2
    case 6 => (x / 64) % 2
    case _ => (x / 128) % 2
  }

  /** The bits of a nibble assembled from four single bits */
  lemma BitsOfParts(a: nat, b: nat, c: nat, d: nat)
    requires a < 2 && b < 2 && c < 2 && d < 2
    ensures var n := a + 2 * b + 4 * c + 8 * d;
            Bit(n, 0) == a && Bit(n, 1) == b && Bit(n, 2) == c && Bit(n, 3) == d
  {
  }

  /** The low nibble of a number is made of its bits 0..3. */
  lemma LowNibble(x: nat)
    ensures x % 16 == Bit(x, 0) + 2 * Bit(x, 1) + 4 * Bit(x, 2) + 8 * Bit(x, 3)
    ensures Bit(x % 16, 0) == Bit(x, 0) && Bit(x % 16, 1) == Bit(x, 1)
    ensures Bit(x % 16, 2) == Bit(x, 2) && Bit(x % 16, 3) == Bit(x, 3)
  {
    var q1 := x / 2;
    var q2 := q1 / 2;
    var q3 := q2 / 2;
    var q4 := q3 / 2;
    var b0, b1, b2, b3 := x % 2, q1 % 2, q2 % 2, q3 % 2;
    assert x == 16 * q4 + 8 * b3 + 4 * b2 + 2 * b1 + b0;
    DivMod(x, 4, q2, 2 * b1 + b0);
    DivMod(x, 8, q3, 4 * b2 + 2 * b1 + b0);
    DivMod(x, 16, q4, 8 * b3 + 4 * b2 + 2 * b1 + b0);
    BitsOfParts(b0, b1, b2, b3);
  }

  /** A nibble is determined by its four bits. */
  lemma SameBits(a: Nibble, b: Nibble)
    requires Bit(a, 0) == Bit(b, 0) && Bit(a, 1) == Bit(b, 1)
    requires Bit(a, 2) == Bit(b, 2) && Bit(a, 3) == Bit(b, 3)
    ensures a == b
  {
    LowNibble(a);
    LowNibble(b);
    DivMod(a, 16, 0, a);
    DivMod(b, 16, 0, b);
    assert a == Bit(a, 0) + 2 * Bit(a, 1) + 4 * Bit(a, 2) + 8 * Bit(a, 3);
    assert b == Bit(b, 0) + 2 * Bit(b, 1) + 4 * Bit(b, 2) + 8 * Bit(b, 3);
  }

  /** Nibble `i` (0 = least significant) of a 16-bit word */
  function NibbleAt(w: Word, i: nat): Nibble
    requires i < 4
  {
    match i
    case 0 => w % 16
    case 1 => (w / 16) % 16
    case 2 => (w / 256) % 16
    case _ => w / 4096
  }

  /** The word whose nibbles, most significant first, are n3 n2 n1 n0 */
  function Pack(n3: Nibble, n2: Nibble, n1: Nibble, n0: Nibble): (w: Word)
    ensures NibbleAt(w, 3) == n3 && NibbleAt(w, 2) == n2
    ensures NibbleAt(w, 1) == n1 && NibbleAt(w, 0) == n0
  {
    var w := n3 * 4096 + n2 * 256 + n1 * 16 + n0;
    DivMod(w, 16, n3 * 256 + n2 * 16 + n1, n0);
    DivMod(w, 256, n3 * 16 + n2, n1 * 16 + n0);
    DivMod(w, 4096, n3, n2 * 256 + n1 * 16 + n0);
    DivMod(n3 * 256 + n2 * 16 + n1, 16, n3 * 16 + n2, n1);
    DivMod(n3 * 16 + n2, 16, n3, n2);
    w
  }

  /** Every word is the packing of its own nibbles. */
  lemma PackNibbles(w: Word)
    ensures Pack(NibbleAt(w, 3), NibbleAt(w, 2), NibbleAt(w, 1), NibbleAt(w, 0)) == w
  {
    var q1, q2 := w / 16, w / 256;
    var n0, n1, n2, n3 := w % 16, q1 % 16, q2 % 16, w / 4096;
    assert w == q1 * 16 + n0;
    DivMod(w, 256, q1 / 16, (q1 % 16) * 16 + n0);
    DivMod(w, 4096, q2 / 16, (q2 % 16) * 256 + n1 * 16 + n0);
    assert w == n3 * 4096 + n2 * 256 + n1 * 16 + n0;
  }

  /** Two words with the same four nibbles are equal. */
  lemma NibblesDetermine(v: Word, w: Word)
    requires forall i :: 0 <= i < 4 ==> NibbleAt(v, i) == NibbleAt(w, i)
    ensures v == w
  {
    assert NibbleAt(v, 0) == NibbleAt(w, 0);
    assert NibbleAt(v, 1) == NibbleAt(w, 1);
    assert NibbleAt(v, 2) == NibbleAt(w, 2);
    assert NibbleAt(v, 3) == NibbleAt(w, 3);
    PackNibbles(v);
    PackNibbles(w);
  }

  /** 2 to the power k */
  function Pow2(k: nat): (p: nat)
    ensures p >= 1
  {
    if k == 0 then 1 else 2 * Pow2(k - 1)
  }

  /** The C operator `|` on non-negative integers, bit by bit from the least significant end */
  function BitOr(a: nat, b: nat): nat
    decreases a + b
  {
    if a == 0 && b == 0 then 0
    else 2 * BitOr(a / 2, b / 2) + (if a % 2 == 1 || b % 2 == 1 then 1 else 0)
  }

  lemma {:induction false} OrZero(a: nat)
    ensures BitOr(a, 0) == a && BitOr(0, a) == a
    decreases a
  {
    if a != 0 {
      OrZero(a / 2);
    }
  }

  lemma {:induction false} OrComm(a: nat, b: nat)
    ensures BitOr(a, b) == BitOr(b, a)
    decreases a + b
  {
    if a != 0 || b != 0 {
      OrComm(a / 2, b / 2);
    }
  }

  lemma {:induction false} OrOnes(x: nat, k: nat)
    requires x < Pow2(k)
    ensures BitOr(x, Pow2(k) - 1) == Pow2(k) - 1
    decreases k
  {
    if k > 0 {
      OnesHalf(x, k);
      OrOnes(x / 2, k - 1);
      OrStep(x, Pow2(k) - 1);
    }
  }

  /** Halving k ones gives k - 1 ones, and halving keeps x below the smaller power. */
  lemma OnesHalf(x: nat, k: nat)
    requires k > 0 && x < Pow2(k)
    ensures var p := Pow2(k - 1);
            Pow2(k) == 2 * p && (Pow2(k) - 1) / 2 == p - 1 && (Pow2(k) - 1) % 2 == 1 && x / 2 < p
  {
  }

  /** One step of the definition of BitOr, for all operands. */
  lemma OrStep(x: nat, y: nat)
    ensures BitOr(x, y) == 2 * BitOr(x / 2, y / 2) + (if x % 2 == 1 || y % 2 == 1 then 1 else 0)
  {
  }

  lemma MulDouble(c: nat, p: nat)
    ensures c * (2 * p) == 2 * (c * p)
  {
  }

  /**
   Splitting both operands at bit k splits the OR: the high parts and the low
   parts are combined independently.
   */
  lemma {:induction false} OrSplit(a: nat, r: nat, b: nat, s: nat, k: nat)
    requires r < Pow2(k) && s < Pow2(k)
    ensures BitOr(a * Pow2(k) + r, b * Pow2(k) + s) == BitOr(a, b) * Pow2(k) + BitOr(r, s)
    decreases k
  {
    if k > 0 {
      OrSplit(a, r / 2, b, s / 2, k - 1);
      OrSplitLift(a, r, b, s, k);
    } else {
      assert Pow2(k) == 1 && r == 0 && s == 0;
      assert a * Pow2(k) == a && b * Pow2(k) == b && BitOr(a, b) * Pow2(k) == BitOr(a, b);
      assert BitOr(r, s) == 0;
    }
  }

  /** OrSplit at bit k from OrSplit at bit k - 1. */
  lemma OrSplitLift(a: nat, r: nat, b: nat, s: nat, k: nat)
    requires k > 0 && r < Pow2(k) && s < Pow2(k)
    requires BitOr(a * Pow2(k - 1) + r / 2, b * Pow2(k - 1) + s / 2)
             == BitOr(a, b) * Pow2(k - 1) + BitOr(r / 2, s / 2)
    ensures BitOr(a * Pow2(k) + r, b * Pow2(k) + s) == BitOr(a, b) * Pow2(k) + BitOr(r, s)
  {
    var p := Pow2(k - 1);
    PowDouble(a, k);
    PowDouble(b, k);
    PowDouble(BitOr(a, b), k);
    OrSplitStep(a * p, r, b * p, s, BitOr(a, b) * p);
  }

  lemma PowDouble(c: nat, k: nat)
    requires k > 0
    ensures c * Pow2(k) == 2 * (c * Pow2(k - 1)) && c * Pow2(k - 1) >= 0
  {
    MulDouble(c, Pow2(k - 1));
  }

  /** The inductive step of OrSplit, with the products named. */
  lemma OrSplitStep(ta: nat, r: nat, tb: nat, s: nat, hi: nat)
    requires BitOr(ta + r / 2, tb + s / 2) == hi + BitOr(r / 2, s / 2)
    ensures BitOr(2 * ta + r, 2 * tb + s) == 2 * hi + BitOr(r, s)
  {
    var x, y := 2 * ta + r, 2 * tb + s;
    assert x / 2 == ta + r / 2 && x % 2 == r % 2;
    assert y / 2 == tb + s / 2 && y % 2 == s % 2;
    OrStep(x, y);
    OrStep(r, s);
  }

  lemma Pow2Values()
    ensures Pow2(4) == 16 && Pow2(7) == 128 && Pow2(8) == 256
    ensures Pow2(12) == 4096 && Pow2(16) == 65536
  {
    assert Pow2(4) == 16;
    assert Pow2(8) == 256;
    assert Pow2(12) == 4096;
  }

  /** `w | 0xff00`: the high byte becomes all ones, the low byte is kept. */
  lemma OrHighByte(w: Word)
    ensures BitOr(w, 0xff00) == 0xff00 + w % 256
  {
    var h, l := w / 256, w % 256;
    assert w == h * 256 + l;
    Pow2Values();
    OrSplit(h, l, 255, 0, 8);
    assert BitOr(w, 0xff00) == BitOr(h, 255) * 256 + BitOr(l, 0);
    assert h < 256;
    OrOnes(h, 8);
    assert BitOr(h, 255) == 255;
    OrZero(l);
  }

  /** `w | 0xf000`: the top nibble becomes all ones, the rest is kept. */
  lemma OrTopNibble(w: Word)
    ensures BitOr(w, 0xf000) == 0xf000 + w % 4096
  {
    var h, l := w / 4096, w % 4096;
    assert w == h * 4096 + l;
    Pow2Values();
    OrSplit(h, l, 15, 0, 12);
    assert BitOr(w, 0xf000) == BitOr(h, 15) * 4096 + BitOr(l, 0);
    OrOnes(h, 4);
    OrComm(h, 15);
    OrZero(l);
  }

  /** `w | 0x00ff`: the low byte becomes all ones, the high byte is kept. */
  lemma OrLowByte(w: Word)
    ensures BitOr(w, 0x00ff) == (w / 256) * 256 + 0xff
  {
    var h, l := w / 256, w % 256;
    assert w == h * 256 + l;
    Pow2Values();
    OrSplit(h, l, 0, 255, 8);
    assert BitOr(w, 0xff) == BitOr(h, 0) * 256 + BitOr(l, 255);
    OrZero(h);
    OrOnes(l, 8);
  }

  /** `w | 0xffff` is all ones. */
  lemma OrAllOnes(w: Word)
    ensures BitOr(w, 0xffff) == 0xffff
  {
    Pow2Values();
    OrOnes(w, 16);
  }

  /** `b | 0200` on a byte sets bit 7 and keeps bits 0..6. */
  lemma OrBit7(b: Byte)
    ensures BitOr(b, 128) == 128 + b % 128
  {
    var h, l := b / 128, b % 128;
    assert b == h * 128 + l;
    Pow2Values();
    OrSplit(h, l, 1, 0, 7);
    assert BitOr(b, 128) == BitOr(h, 1) * 128 + BitOr(l, 0);
    assert h == 0 || h == 1;
    assert BitOr(h, 1) == 1;
    OrZero(l);
  }

  /** OR-ing fields that occupy different bits is addition. */
  lemma OrDisjoint(hi: nat, lo: nat, k: nat)
    requires lo < Pow2(k)
    ensures hi * Pow2(k) >= 0 && BitOr(hi * Pow2(k), lo) == hi * Pow2(k) + lo
  {
    var p := Pow2(k);
    MulDouble(hi, p);
    assert hi * p >= 0;
    OrSplit(hi, 0, 0, lo, k);
    assert hi * p + 0 == hi * p && 0 * p + lo == lo;
    OrZero(hi);
    OrZero(lo);
  }

  /** `(hi << 8) + lo` on bytes: the C macro `maketime` */
  function MakeTime(hi: Byte, lo: Byte): (w: Word)
    ensures w / 256 == hi && w % 256 == lo
  {
    hi * 256 + lo
  }

  /** `w & 0x00ff` */
  function LowByte(w: Word): Byte { w % 256 }

  /** `w & 0xff00` */
  function HighByte(w: Word): Byte { w / 256 }

  /** Euclidean division is determined by quotient and remainder. */
  lemma DivMod(x: int, m: int, q: int, r: int)
    requires m > 0 && 0 <= r < m && x == q * m + r
    ensures x / m == q && x % m == r
  {
    var q', r' := x / m, x % m;
    assert x == q' * m + r';
    assert (q - q') * m == r' - r;
    if q > q' {
      assert (q - q') * m >= m by { MulMono(q - q', m); }
    } else if q < q' {
      assert (q' - q) * m >= m by { MulMono(q' - q, m); }
    }
  }

  lemma MulMono(a: int, m: int)
    requires a >= 1 && m > 0
    ensures a * m >= m
  {
  }

  /** Adding to a truncated word and truncating again is truncating the exact sum. */
  lemma WrapAdd(a: int, b: int)
    ensures ToWord(ToWord(a) + b) == ToWord(a + b)
  {
    ModAdd(a, b, 65536);
  }

  /** Reducing before adding does not change the residue. */
  lemma ModAdd(a: int, b: int, m: int)
    requires m > 0
    ensures (a % m + b) % m == (a + b) % m
  {
    var q, k, r := a / m, (a % m + b) / m, (a % m + b) % m;
    assert a == q * m + a % m;
    assert a % m + b == k * m + r;
    assert a + b == (q + k) * m + r;
    DivMod(a + b, m, q + k, r);
  }
}
