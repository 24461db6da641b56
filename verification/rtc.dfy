/**
 The real-time clock as the core sees it: seven BCD timekeeping registers,
 addressed as in the `rtc_x...` accessors, read and written one byte at a
 time. The serial-bus transaction behind each access is not modelled.
 */
module Rtc {
  import opened Bits

  /** Register addresses of the `rtc_x...` accessors */
  const SECONDS: Addr := 0
  const MINUTES: Addr := 1
  const HOURS: Addr := 2
  const DOW: Addr := 3
  const DAY: Addr := 4
  const MONTH: Addr := 5
  const YEAR: Addr := 6

  type Addr = a: int | 0 <= a < 7

  /** The register file, indexed by address */
  type Regs = s: seq<Byte> | |s| == 7 witness [0, 0, 0, 0, 0, 0, 0]

  /** One register write `rtc_rw(addr, value)` */
  datatype Write = Write(addr: Addr, value: Byte)

  /**
   `rtc_rw` takes its value as int8_t and reads when it is -1, so a byte is
   transferred as a write only if it is not 0xff.
   */
  predicate IsWritable(value: Byte) {
    value != 0xff
  }

  predicate AllWritable(ws: seq<Write>) {
    forall i :: 0 <= i < |ws| ==> IsWritable(ws[i].value)
  }

  /** `rtc_x...(-1)`: the register's current value */
  function Read(r: Regs, a: Addr): Byte {
    r[a]
  }

  function Apply(r: Regs, w: Write): (r': Regs)
    ensures Read(r', w.addr) == w.value
    ensures forall a: Addr :: a != w.addr ==> Read(r', a) == Read(r, a)
  {
    r[w.addr := w.value]
  }

  /** The registers after a sequence of writes, in order */
  function ApplyAll(r: Regs, ws: seq<Write>): Regs
    decreases |ws|
  {
    if ws == [] then r else ApplyAll(Apply(r, ws[0]), ws[1..])
  }

  /** A register no write addresses keeps its value. */
  lemma {:induction false} ApplyAllUntouched(r: Regs, ws: seq<Write>, a: Addr)
    requires forall i :: 0 <= i < |ws| ==> ws[i].addr != a
    ensures Read(ApplyAll(r, ws), a) == Read(r, a)
    decreases |ws|
  {
    if ws != [] {
      ApplyAllUntouched(Apply(r, ws[0]), ws[1..], a);
    }
  }

  /** The last write to a register decides its value. */
  lemma {:induction false} ApplyAllLast(r: Regs, ws: seq<Write>, i: nat)
    requires i < |ws|
    requires forall j :: i < j < |ws| ==> ws[j].addr != ws[i].addr
    ensures Read(ApplyAll(r, ws), ws[i].addr) == ws[i].value
    decreases |ws|
  {
    if i == 0 {
      ApplyAllUntouched(Apply(r, ws[0]), ws[1..], ws[0].addr);
    } else {
      ApplyAllLast(Apply(r, ws[0]), ws[1..], i - 1);
    }
  }

  /** Applying two batches of writes is applying their concatenation. */
  lemma {:induction false} ApplyAllConcat(r: Regs, ws: seq<Write>, vs: seq<Write>)
    ensures ApplyAll(ApplyAll(r, ws), vs) == ApplyAll(r, ws + vs)
    decreases |ws|
  {
    if ws != [] {
      assert (ws + vs)[0] == ws[0] && (ws + vs)[1..] == ws[1..] + vs;
      ApplyAllConcat(Apply(r, ws[0]), ws[1..], vs);
    } else {
      assert ws + vs == vs;
    }
  }

  lemma AllWritableConcat(ws: seq<Write>, vs: seq<Write>)
    requires AllWritable(ws) && AllWritable(vs)
    ensures AllWritable(ws + vs)
  {
    assert forall i :: 0 <= i < |ws + vs| ==> (ws + vs)[i] == if i < |ws| then ws[i] else vs[i - |ws|];
  }
}
