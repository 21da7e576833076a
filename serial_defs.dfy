/**
 * The hardware constants the driver takes from its serial header. That header is
 * not part of this model, so each constant is a field of a parameter record, and
 * Valid() names the only facts about them that the driver relies on.
 */
module SerialDefs {
  /** One byte as a UART register holds it. */
  type Byte = bv8

  /** A C `int` of Turbo C: sixteen bits, two's complement. */
  type Int16 = x: int | -0x8000 <= x < 0x8000

  datatype HwConsts = HwConsts(
    com1: int,          // port selector for the first serial port
    com2: int,          // port selector for the second serial port
    noParity: Byte,     // line-control bits for "no parity"
    oddParity: Byte,    // line-control bits for "odd parity"
    evenParity: Byte,   // line-control bits for "even parity"
    cts: Byte,          // clear-to-send bit of the modem status register
    xmtrdy: Byte,       // transmitter-ready bit of the line status register
    rxMask: Byte,       // mask applied to the interrupt identification register
    rxId: Byte,         // masked identification value of a receive interrupt
    mcrActive: Byte)    // modem control value MC_INT | DTR | RTS
  {
    /**
     * The two port selectors are distinct cases of one switch, and the parity
     * constants stay clear of the word-length and stop-bit fields (bits 0 to 2)
     * of the line control register, as on the 8250 family.
     */
    predicate Valid() {
      && com1 != com2
      && noParity & 7 == 0
      && oddParity & 7 == 0
      && evenParity & 7 == 0
    }

    /** `p` is one of the three parity constants the driver accepts. */
    predicate IsParity(p: int) {
      p == noParity as int || p == oddParity as int || p == evenParity as int
    }
  }
}
