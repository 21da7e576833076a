/**
 * Line set-up and transmission on the 8250-family UART: SetPort, SetSpeed,
 * SetOthers, SetSerial and SerialOut of c25-pc.c.
 *
 * The UART is seen through the registers the driver writes. Every `outportb`
 * is appended to a log of writes, and the value a register holds (what the
 * driver reads back from LCR) is the last value written to it, or the value it
 * held before the driver started. The status registers the driver polls
 * change on their own, so their successive readings are parameters.
 */
module Uart {
  import opened SerialDefs
  import opened Wrappers

  /** The registers the driver writes, relative to `portbase`. */
  datatype Reg = TXR | LCR | MCR | DLL | DLH

  datatype RegWrite = RegWrite(reg: Reg, value: Byte)

  /** The UART's clock divided by 16: the divisor for a speed is this over the speed. */
  const BASE_RATE: int := 115200
  /** Bit 7 of LCR, the divisor latch access bit. */
  const DLAB: Byte := 0x80
  /** How many readings each of SerialOut's two waits makes before giving up. */
  const POLL_BUDGET: nat := 0xFFFF

  /** C's `/` on a positive dividend: the quotient truncated toward zero. */
  function TruncDiv(a: nat, b: int): (q: int)
    requires b != 0
    ensures b > 0 ==> 0 <= q && q * b <= a < q * b + b
    ensures b < 0 ==> q <= 0 && q * b <= a < q * b - b
  {
    if b > 0 then a / b else -(a / -b)
  }

  /** Turbo C's conversion of a `long` to a 16-bit `int`: keep the low sixteen bits, two's complement. */
  function ToInt16(x: int): (r: Int16)
    ensures (x - r) % 0x10000 == 0
    ensures -0x8000 <= x < 0x8000 ==> r == x
  {
    (x + 0x8000) % 0x10000 - 0x8000
  }

  /** SetSpeed's `divisor = (int) (115200L / Speed)`. */
  function Divisor(speed: Int16): (d: Int16)
    requires speed != 0
    ensures (TruncDiv(BASE_RATE, speed) - d) % 0x10000 == 0
    ensures speed >= 4 || speed <= -4 ==> d == TruncDiv(BASE_RATE, speed)
  {
    ToInt16(TruncDiv(BASE_RATE, speed))
  }

  /** `divisor & 0x00FF` */
  function LowByte(d: int): (b: int)
    ensures 0 <= b < 0x100
  {
    d % 0x100
  }

  /** `(divisor >> 8) & 0x00FF`: Turbo C shifts a negative `int` arithmetically, that is, divides rounding down. */
  function HighByte(d: int): (b: int)
    ensures 0 <= b < 0x100
  {
    (d / 0x100) % 0x100
  }

  /** The two bytes written to the divisor latch are the 16-bit divisor, whatever its sign. */
  lemma DivisorBytes(d: Int16)
    ensures HighByte(d) * 0x100 + LowByte(d) == d % 0x10000
  {
  }

  /** A product grows with its left factor. */
  lemma MulMonotone(a: int, b: int, c: nat)
    requires a <= b
    ensures a * c <= b * c
  {
    var x := b - a;
    assert b * c == a * c + x * c;
  }

  /** `BASE_RATE / speed` lies between 6 and 768 for the speeds the program accepts. */
  lemma {:induction false} QuotientBounds(speed: int, q: int, r: int)
    requires 150 <= speed <= 19200
    requires BASE_RATE == q * speed + r && 0 <= r < speed
    ensures 6 <= q <= 768
  {
    if q > 768 {
      MulMonotone(769, q, speed);
    }
    if q < 6 {
      MulMonotone(q, 5, speed);
    }
  }

  /**
   * For the speeds the program accepts, the divisor is C's division truncated,
   * not rounded, and lies between 6 and 768, and the two bytes written to the
   * divisor latch put it back together.
   */
  lemma {:induction false} DivisorForSupportedSpeeds(speed: Int16)
    requires 150 <= speed <= 19200
    ensures var d := Divisor(speed);
      && 6 <= d <= 768
      && d * speed <= BASE_RATE < (d + 1) * speed
      && HighByte(d) * 0x100 + LowByte(d) == d
  {
    var q := BASE_RATE / speed;
    var r := BASE_RATE % speed;
    QuotientBounds(speed, q, r);
    assert TruncDiv(BASE_RATE, speed) == q;
    assert Divisor(speed) == q;
    assert (q + 1) * speed == q * speed + speed;
    DivisorBytes(q);
  }

  /** SetPort's switch: the offset of the port's base address in the BIOS data area. */
  function PortOffset(hw: HwConsts, port: int): (off: Option<int>)
    ensures off.Some? <==> port == hw.com1 || port == hw.com2
    ensures off.Some? ==> (off.value == 0 <==> port == hw.com1)
    ensures off.Some? ==> (off.value == 2 <==> port != hw.com1)
  {
    if port == hw.com1 then Some(0x0000)
    else if port == hw.com2 then Some(0x0002)
    else None
  }

  /** SetPort succeeds: the port is COM1 or COM2 and the BIOS has a base address for it. */
  predicate PortFound(hw: HwConsts, port: int, bios: int -> int) {
    PortOffset(hw, port).Some? && bios(PortOffset(hw, port).value) != 0
  }

  /**
   * SetOthers' checks and the line control byte it computes: nothing unless
   * a port is set, the word length is 5 to 8 bits, there are 1 or 2 stop bits
   * and the parity is one of the three constants.
   */
  function LineControl(hw: HwConsts, portbase: int, parity: int, bits: int, stopBit: int): (lcr: Option<Byte>)
    ensures lcr.Some? <==>
      portbase != 0 && 5 <= bits <= 8 && (stopBit == 1 || stopBit == 2) && hw.IsParity(parity)
  {
    if portbase == 0 then None
    else if bits < 5 || bits > 8 then None
    else if stopBit != 1 && stopBit != 2 then None
    else if !hw.IsParity(parity) then None
    else Some(LcrByte(hw, parity, bits, stopBit))
  }

  /** The line control byte SetOthers writes once its checks have passed. */
  function LcrByte(hw: HwConsts, parity: int, bits: int, stopBit: int): (lcr: Byte)
    requires 5 <= bits <= 8 && (stopBit == 1 || stopBit == 2) && hw.IsParity(parity)
    ensures hw.Valid() ==>
      && lcr & 0x03 == WordLength(bits)
      && (lcr & 0x04 != 0 <==> stopBit == 2)
      && (lcr & 0xF8) as int == parity
  {
    var stop: Byte := if stopBit == 1 then 0x00 else 0x04;
    WordLength(bits) | stop | ParityBits(hw, parity)
  }

  /** `Bits - 5` as the byte written. */
  function WordLength(bits: int): (b: Byte)
    requires 5 <= bits <= 8
    ensures b < 4
  {
    if bits == 5 then 0 else if bits == 6 then 1 else if bits == 7 then 2 else 3
  }

  /** `Parity` as the byte written: the constant it equals. */
  function ParityBits(hw: HwConsts, parity: int): (p: Byte)
    requires hw.IsParity(parity)
    ensures p as int == parity
  {
    if parity == hw.noParity as int then hw.noParity
    else if parity == hw.oddParity as int then hw.oddParity
    else hw.evenParity
  }

  /** Writing LCR, DLL, DLH and then LCR's old value back leaves LCR as it was. */
  lemma RestoreLcr(m: map<Reg, Byte>, a: Byte, lo: Byte, hi: Byte)
    requires LCR in m
    ensures m[LCR := a][DLL := lo][DLH := hi][LCR := m[LCR]] == m[DLL := lo][DLH := hi]
  {
    var l := m[LCR := a][DLL := lo][DLH := hi][LCR := m[LCR]];
    var r := m[DLL := lo][DLH := hi];
    assert l.Keys == r.Keys;
    forall k | k in l.Keys
      ensures l[k] == r[k]
    {
    }
  }

  /** SetSpeed's four writes: set DLAB, the two divisor bytes, then LCR as it was. */
  function SpeedWrites(lcr: Byte, d: int): (ws: seq<RegWrite>) {
    [RegWrite(LCR, lcr | DLAB), RegWrite(DLL, LowByte(d) as Byte), RegWrite(DLH, HighByte(d) as Byte), RegWrite(LCR, lcr)]
  }

  /** Some reading among the first POLL_BUDGET shows the bit `mask`. */
  ghost predicate Ready(status: nat -> Byte, mask: Byte) {
    exists j :: 0 <= j < POLL_BUDGET && status(j) & mask != 0
  }

  /**
   * One of SerialOut's waits: read the status register until a reading shows
   * `mask`, decrementing a budget of POLL_BUDGET and giving up when it runs
   * out. `status(j)` is the (j+1)-th reading. Returns whether the bit showed
   * and how many readings it took.
   */
  method WaitFor(status: nat -> Byte, mask: Byte) returns (ok: bool, polls: nat)
    ensures ok <==> Ready(status, mask)
    ensures ok ==> polls < POLL_BUDGET && status(polls) & mask != 0
    ensures ok ==> forall j :: 0 <= j < polls ==> status(j) & mask == 0
    ensures !ok ==> polls == POLL_BUDGET
  {
    var timeout: int := POLL_BUDGET;
    polls := 0;
    while status(polls) & mask == 0
      invariant polls < POLL_BUDGET && timeout == POLL_BUDGET - polls
      invariant forall j :: 0 <= j < polls ==> status(j) & mask == 0
      decreases timeout
    {
      timeout := timeout - 1;
      polls := polls + 1;
      if timeout == 0 {
        return false, polls;
      }
    }
    return true, polls;
  }

  /** What SerialOut writes: MCR always, TXR only when both waits succeed. */
  ghost function SerialOutWrites(hw: HwConsts, x: Byte, msr: nat -> Byte, lsr: nat -> Byte): (ws: seq<RegWrite>)
    ensures |ws| >= 1 && ws[0] == RegWrite(MCR, hw.mcrActive)
    ensures forall i :: 0 <= i < |ws| ==> ws[i].reg == MCR || ws[i] == RegWrite(TXR, x)
    ensures RegWrite(TXR, x) in ws <==> Ready(msr, hw.cts) && Ready(lsr, hw.xmtrdy)
  {
    [RegWrite(MCR, hw.mcrActive)]
      + (if Ready(msr, hw.cts) && Ready(lsr, hw.xmtrdy) then [RegWrite(TXR, x)] else [])
  }

  /**
   * What the registers hold after the writes `ws`, oldest first, starting from
   * `m`: a register written holds its last write, the others keep their values.
   */
  function Replay(m: map<Reg, Byte>, ws: seq<RegWrite>): (r: map<Reg, Byte>)
    ensures m.Keys <= r.Keys
    ensures forall g :: g in m && (forall i :: 0 <= i < |ws| ==> ws[i].reg != g) ==> r[g] == m[g]
    ensures forall i :: 0 <= i < |ws| ==> ws[i].reg in r
    ensures ws != [] ==> r[ws[|ws| - 1].reg] == ws[|ws| - 1].value
    decreases |ws|
  {
    if ws == [] then m else Replay(m[ws[0].reg := ws[0].value], ws[1..])
  }

  /** Every register written holds the value of its last write. */
  lemma {:induction false} ReplayLastWrite(m: map<Reg, Byte>, ws: seq<RegWrite>, i: nat)
    requires i < |ws|
    requires forall j :: i < j < |ws| ==> ws[j].reg != ws[i].reg
    ensures Replay(m, ws)[ws[i].reg] == ws[i].value
    decreases |ws|
  {
    var m' := m[ws[0].reg := ws[0].value];
    if i == 0 {
      assert forall j :: 0 <= j < |ws[1..]| ==> ws[1..][j].reg != ws[0].reg by {
        forall j | 0 <= j < |ws[1..]|
          ensures ws[1..][j].reg != ws[0].reg
        {
          assert ws[1..][j] == ws[j + 1];
        }
      }
    } else {
      forall j | i - 1 < j < |ws[1..]|
        ensures ws[1..][j].reg != ws[1..][i - 1].reg
      {
        assert ws[1..][j] == ws[j + 1];
      }
      ReplayLastWrite(m', ws[1..], i - 1);
    }
  }

  /** Replaying two runs of writes one after the other is replaying them joined. */
  lemma {:induction false} ReplayAppend(m: map<Reg, Byte>, a: seq<RegWrite>, b: seq<RegWrite>)
    ensures Replay(m, a + b) == Replay(Replay(m, a), b)
    decreases |a|
  {
    if a == [] {
      assert a + b == b;
    } else {
      assert (a + b)[1..] == a[1..] + b;
      ReplayAppend(m[a[0].reg := a[0].value], a[1..], b);
    }
  }

  /** The serial port as the driver sees it. */
  class Port {
    /** The header constants. */
    const hw: HwConsts
    var portbase: int
    /** What each register holds: the last value written, or its value before the driver started. */
    var regs: map<Reg, Byte>
    /** Every register write, oldest first. */
    var writes: seq<RegWrite>

    ghost predicate Valid()
      reads this
    {
      LCR in regs
    }

    /** Before SetPort: no port, nothing written. */
    constructor (hw: HwConsts, regs: map<Reg, Byte>)
      requires LCR in regs
      ensures Valid() && this.hw == hw && this.regs == regs
      ensures portbase == 0 && writes == []
    {
      this.hw := hw;
      this.regs := regs;
      portbase := 0;
      writes := [];
    }

    /** `outportb(portbase + r, v)`. */
    method Out(r: Reg, v: Byte)
      modifies this`regs, this`writes
      ensures regs == old(regs)[r := v]
      ensures writes == old(writes) + [RegWrite(r, v)]
    {
      regs := regs[r := v];
      writes := writes + [RegWrite(r, v)];
    }

    /**
     * SetPort: pick the BIOS word of the port and take it as the base address,
     * unless the port is not COM1 or COM2 or the BIOS holds 0 for it.
     * `bios(off)` is the word at 0040:off.
     */
    method SetPort(port: int, bios: int -> int) returns (r: int)
      modifies this`portbase
      ensures r == 0 || r == -1
      ensures r == 0 <==> PortFound(hw, port, bios)
      ensures r == 0 ==> portbase == bios(PortOffset(hw, port).value) && portbase != 0
      ensures r != 0 ==> portbase == old(portbase)
    {
      var offset: int;
      if port == hw.com1 {
        offset := 0x0000;
      } else if port == hw.com2 {
        offset := 0x0002;
      } else {
        return -1;
      }
      var addr := bios(offset);
      if addr == 0 {
        return -1;
      }
      portbase := addr;
      return 0;
    }

    /**
     * SetSpeed: fails on speed 0 (before dividing) or when no port is set,
     * writing nothing; otherwise sets DLAB, writes the divisor's low and high
     * bytes, and restores LCR to what it read.
     */
    method SetSpeed(speed: Int16) returns (r: int)
      requires Valid()
      modifies this`regs, this`writes
      ensures Valid()
      ensures r == 0 || r == -1
      ensures r == 0 <==> speed != 0 && portbase != 0
      ensures r != 0 ==> writes == old(writes) && regs == old(regs)
      ensures r == 0 ==> writes == old(writes) + SpeedWrites(old(regs)[LCR], Divisor(speed))
      ensures r == 0 ==> regs == old(regs)[DLL := LowByte(Divisor(speed)) as Byte][DLH := HighByte(Divisor(speed)) as Byte]
    {
      if speed == 0 {
        return -1;
      }
      var divisor := Divisor(speed);
      if portbase == 0 {
        return -1;
      }
      var c := regs[LCR];
      var lo, hi := LowByte(divisor) as Byte, HighByte(divisor) as Byte;
      Out(LCR, c | DLAB);
      Out(DLL, lo);
      Out(DLH, hi);
      Out(LCR, c);
      assert writes == old(writes) + SpeedWrites(c, divisor);
      RestoreLcr(old(regs), c | DLAB, lo, hi);
      return 0;
    }

    /** SetOthers: on the checks of LineControl, write the line control byte; otherwise write nothing. */
    method SetOthers(parity: int, bits: int, stopBit: int) returns (r: int)
      requires Valid()
      modifies this`regs, this`writes
      ensures Valid()
      ensures r == 0 || r == -1
      ensures r == 0 <==> LineControl(hw, portbase, parity, bits, stopBit).Some?
      ensures r != 0 ==> writes == old(writes) && regs == old(regs)
      ensures r == 0 ==> writes == old(writes) + [RegWrite(LCR, LineControl(hw, portbase, parity, bits, stopBit).value)]
      ensures r == 0 ==> regs == old(regs)[LCR := LineControl(hw, portbase, parity, bits, stopBit).value]
    {
      ghost var lcr := LineControl(hw, portbase, parity, bits, stopBit);
      if portbase == 0 { return -1; }
      if bits < 5 || bits > 8 { return -1; }
      if stopBit != 1 && stopBit != 2 { return -1; }
      if parity != hw.noParity as int && parity != hw.oddParity as int && parity != hw.evenParity as int {
        return -1;
      }
      var setting := LcrByte(hw, parity, bits, stopBit);
      assert lcr == Some(setting);
      Out(LCR, setting);
      return 0;
    }

    /**
     * SetSerial: SetPort, SetSpeed, SetOthers in turn, stopping at the first
     * that fails. A failure in SetOthers comes after SetSpeed has written the
     * new divisor, which stays in place.
     */
    method SetSerial(port: int, speed: Int16, parity: int, bits: int, stopBit: int, bios: int -> int)
      returns (r: int)
      requires Valid()
      modifies this`portbase, this`regs, this`writes
      ensures Valid()
      ensures r == 0 || r == -1
      ensures r == 0 <==> PortFound(hw, port, bios) && speed != 0
                          && 5 <= bits <= 8 && (stopBit == 1 || stopBit == 2) && hw.IsParity(parity)
      ensures PortFound(hw, port, bios) ==> portbase == bios(PortOffset(hw, port).value)
      ensures !PortFound(hw, port, bios) ==> portbase == old(portbase) && writes == old(writes)
      ensures PortFound(hw, port, bios) && speed == 0 ==> writes == old(writes)
      ensures PortFound(hw, port, bios) && speed != 0 && r != 0 ==>
        writes == old(writes) + SpeedWrites(old(regs)[LCR], Divisor(speed))
      ensures r == 0 ==>
        writes == old(writes) + SpeedWrites(old(regs)[LCR], Divisor(speed))
                  + [RegWrite(LCR, LineControl(hw, portbase, parity, bits, stopBit).value)]
      ensures !PortFound(hw, port, bios) || speed == 0 ==> regs == old(regs)
      ensures PortFound(hw, port, bios) && speed != 0 && r != 0 ==>
        regs == old(regs)[DLL := LowByte(Divisor(speed)) as Byte][DLH := HighByte(Divisor(speed)) as Byte]
      ensures r == 0 ==>
        regs == old(regs)[DLL := LowByte(Divisor(speed)) as Byte][DLH := HighByte(Divisor(speed)) as Byte]
                         [LCR := LineControl(hw, portbase, parity, bits, stopBit).value]
    {
      r := SetPort(port, bios);
      if r != 0 {
        return -1;
      }
      r := SetSpeed(speed);
      if r != 0 {
        return -1;
      }
      ghost var w := writes;
      r := SetOthers(parity, bits, stopBit);
      if r != 0 {
        return -1;
      }
      assert writes == w + [RegWrite(LCR, LineControl(hw, portbase, parity, bits, stopBit).value)];
      return 0;
    }

    /**
     * SerialOut: raise DTR, RTS and the interrupt line, wait for clear to send
     * on the modem status readings `msr`, then, with a fresh budget, for the
     * transmitter on the line status readings `lsr`; on success write `x` to
     * TXR and return 0, on either timeout return -1 without writing TXR.
     */
    method SerialOut(x: Byte, msr: nat -> Byte, lsr: nat -> Byte) returns (r: int)
      modifies this`regs, this`writes
      ensures r == 0 || r == -1
      ensures r == 0 <==> Ready(msr, hw.cts) && Ready(lsr, hw.xmtrdy)
      ensures writes == old(writes) + SerialOutWrites(hw, x, msr, lsr)
      ensures regs == if r == 0 then old(regs)[MCR := hw.mcrActive][TXR := x] else old(regs)[MCR := hw.mcrActive]
      ensures regs == Replay(old(regs), SerialOutWrites(hw, x, msr, lsr))
    {
      ghost var m := regs;
      ghost var mcr := RegWrite(MCR, hw.mcrActive);
      assert Replay(m, [mcr]) == Replay(m[MCR := hw.mcrActive], []);
      assert Replay(m, [mcr, RegWrite(TXR, x)]) == Replay(m[MCR := hw.mcrActive], [RegWrite(TXR, x)]);
      Out(MCR, hw.mcrActive);
      var cts, _ := WaitFor(msr, hw.cts);
      if !cts {
        return -1;
      }
      var ready, _ := WaitFor(lsr, hw.xmtrdy);
      if !ready {
        return -1;
      }
      Out(TXR, x);
      return 0;
    }
  }
}
