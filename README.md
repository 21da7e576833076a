# c25-pc.c: PC front end of a TMS320C25 DTMF board

`c25-pc.c` is a DOS program. It drives a TMS320C25 DSP board that encodes and
decodes DTMF tones, and it talks to the board over an 8250-family serial port.
This project models the program's serial and keypad core and proves properties
about it. The core has four parts:

- **The receive ring buffer.** The interrupt handler `com_int` stores each
  received byte in the 1024-byte array `ccbuf` at `endbuf`. `getccb` takes the
  byte at `startbuf`. `SError` records that a byte arrived while the buffer was
  full, and nothing ever clears it. The module is `RxBuffer`. Class
  `RxBuffer.Ring` is the array and its two indices. It is proved to act on the
  abstract view `RxState` (queued bytes, overflow flag) exactly as the functions
  `Receive` and `Get` do.
- **The two key tables.** The encode switch maps a typed key to the code sent
  to the board: the key read as a hexadecimal digit, with `*` = 0xE and
  `#` = 0xF. The decode switch maps a byte from the board to a keypad key by its
  position. The module is `Keypad`.
- **Line set-up and transmission.** This covers `SetPort`, `SetSpeed`,
  `SetOthers`, `SetSerial` and `SerialOut` on class `Uart.Port`. The port is
  seen as a log of register writes plus the values the registers hold.
- **The two session loops.** These are `decode()` and `encode()`, in modules
  `Decoding` and `Encoding`. The receive interrupt may run between any two
  passes of a loop, so a session runs over a script of events. Each event is
  either an interrupt or one test of the loop condition followed by one pass of
  the body, taken as one step.
  The script also supplies the keyboard and the UART status readings. Each
  session method is proved equal to a ghost `Session` function. Lemmas then tie
  that function to the buffer's trace function `RxBuffer.Run`.

Conventions:

- **Signed char.** Turbo C's `char` is signed, so `(int) ccbuf[i]` is the
  byte's signed value (`RxBuffer.SignedChar`). A received 0xFF therefore comes
  back as -1, the same value as `EMPTY`. The decode loop prints nothing for it
  and the encode loop does not echo it.
- **Machine integers.** `int` is 16-bit two's complement (`SerialDefs.Int16`).
  The divisor `(int)(115200L/Speed)` is C's truncating division, cut to 16 bits
  (`Uart.TruncDiv`, `Uart.ToInt16`). `SerialOut(SendChar)` passes only the low
  byte of the `int` (`Encoding.CharOf`).
- **Indeterminate values.** `SendChar` in `encode` and `key` in `decode` are
  not initialised. They are parameters of the sessions (`sendChar0`, `key0`).
  A key or byte that matches no case of the switch reuses the previous value.

Three behaviours of the code are worth knowing before reading the model:

- **Overflow destroys.** A byte that arrives with 1023 bytes queued is still
  stored. `endbuf` then catches up with `startbuf`, so the whole queue reads
  as empty, and `SError` is set (`RxBuffer.FillingPastCapacityLosesEverything`).
  The byte is not rejected, and the queued bytes are not kept.
- **The divisor truncates.** It is not rounded (`Uart.DivisorForSupportedSpeeds`).
- **No round trip.** The decode table uses keypad positions, while the encode
  table uses hex digits. So decoding the code of a key does not give back the
  key. The two tables cover the same sixteen keys
  (`Keypad.DecodeKeysAreEncodeKeys`).

## Model

| member | source | states |
|---|---|---|
| RxBuffer.SignedChar | c25-pc.c:103 | the value is in -128..127 and equals the byte modulo 256; it is EMPTY exactly when the byte is 0xFF |
| RxBuffer.Receive | c25-pc.c:62-67 | a receive keeps the queue within SBUFSIZ - 1 bytes; the error is sticky; the receive that sets the error leaves nothing readable |
| RxBuffer.ComIntStep | c25-pc.c:59-71 | com_int keeps the buffer within capacity and never clears the error |
| RxBuffer.Get | c25-pc.c:98-106 | getccb never changes the error flag and never lengthens the queue |
| RxBuffer.Run | c25-pc.c:59-106 | any interleaving of com_int and getccb keeps the buffer within capacity, and once set the error stays set |
| RxBuffer.Fifo | c25-pc.c:59-106 | while no overflow has happened, the bytes taken out are a prefix, in arrival order, of the bytes queued or stored, and the rest are still queued |
| RxBuffer.BoundedTrafficNeverOverflows | c25-pc.c:64 | a coarse bound: if the bytes queued at the start plus all bytes stored during the run stay below SBUFSIZ, whatever the reads do, the error is never set |
| RxBuffer.OverflowExactlyWhenReceivedFull | c25-pc.c:64 | starting without the error, a run sets it exactly when, at some moment, a receive interrupt finds SBUFSIZ - 1 bytes queued, however many bytes pass through in all |
| RxBuffer.FillingPastCapacityLosesEverything | c25-pc.c:64-66 | storing bytes until SBUFSIZ would be pending sets the error and leaves the buffer reading empty, having returned nothing |
| RxBuffer.Next | c25-pc.c:66 | advancing an index, as masking with SBUFSIZ - 1 does, is the successor modulo SBUFSIZ and stays in range |
| RxBuffer.WindowAfterWrite | c25-pc.c:64-66 | writing at endbuf and advancing it appends the byte to the queued window, unless the next index is startbuf, which is exactly when SBUFSIZ - 1 bytes were queued; then the window becomes empty |
| RxBuffer.WindowAfterRead | c25-pc.c:101-104 | on a non-empty window, the byte at startbuf is the window's first, and advancing startbuf drops exactly that byte |
| RxBuffer.Ring.constructor | c25-pc.c:50-54 | the program starts with both indices 0, SError equal to NOERROR and an empty queue |
| RxBuffer.Ring.Reset | c25-pc.c:181 | initserial sets both indices to 0, which empties the queue, and leaves SError as it was |
| RxBuffer.Ring.ComInt | c25-pc.c:59-71 | the array, indices and error change exactly as Receive (or, for other interrupts, nothing) says; the byte lands at the old endbuf, endbuf advances, and SError is set exactly when the next index met startbuf |
| RxBuffer.Ring.GetCcb | c25-pc.c:98-106 | the result is EMPTY on an empty queue and otherwise the signed value of the oldest byte, which leaves the queue; startbuf advances only when something was taken; endbuf and SError are untouched |
| Keypad.Upper | c25-pc.c:453 | `strupr` on the key: no lower-case letter remains, and only lower-case letters change, each to its capital |
| Keypad.KeyCode | c25-pc.c:453-471 | a code exists exactly for the sixteen keypad keys, ignoring letter case, and it lies in 0..15 |
| Keypad.KeyCodeIsHexValue | c25-pc.c:456-471 | the encode table equals an independent hexadecimal reading of the key, with `*` and `#` as 14 and 15 |
| Keypad.EncodeBijective | c25-pc.c:456-471 | every code 0..15 belongs to exactly one keypad key, up to letter case |
| Keypad.EncodeIgnoresCase | c25-pc.c:453 | `a`..`d` send the codes of `A`..`D` |
| Keypad.KeyOfByte | c25-pc.c:343-360 | every byte the decode table knows names a keypad key |
| Keypad.DecodeFollowsLayout | c25-pc.c:345-360 | the byte for keypad row r, column c (16r + c, or 0x55 at row 0, column 0) decodes to the key at that place |
| Keypad.DecodeOnlyLayout | c25-pc.c:343-361 | a byte decodes only if it is 0x55 or has the form 16r + c with r, c < 4, and then it decodes to the key at that place |
| Keypad.DecodeInjective | c25-pc.c:345-360 | two bytes that decode to the same key are the same byte |
| Keypad.DecodeKeysAreEncodeKeys | c25-pc.c:343-471 | the set of keys decode can print equals `Keys`, and so does the set of upper-cased keys encode accepts |
| Keypad.LayoutHoldsKeys | c25-pc.c:345-360 | every keypad key has a place on the 4 x 4 layout |
| Keypad.EncodeStep | c25-pc.c:453-473 | a pass quits exactly on ESC; otherwise it sends the key's code, or the previous SendChar for a key no case matches |
| Keypad.DecodeStep | c25-pc.c:341-363 | a pass prints nothing exactly when getccb returned -1; a byte the table knows prints its own key; any other value prints the previously printed key |
| Keypad.Shown | c25-pc.c:341-363 | everything decode prints over a sequence of values: at most one key per value (ShownPerValue gives the exact count) |
| Keypad.ShownKeys | c25-pc.c:341-363 | everything decode prints is a keypad key or the indeterminate initial `key` |
| Keypad.ShownTable | c25-pc.c:341-363 | when every value is in the decode table, decode prints one key per value, each the key of its own value |
| Uart.TruncDiv | c25-pc.c:228 | C's division of a non-negative dividend: for a positive divisor the largest q with q * b <= a, for a negative one the quotient rounded toward zero, never positive |
| Uart.ToInt16 | c25-pc.c:228 | the cast to a 16-bit `int` is congruent to its argument modulo 65536 and keeps every value that fits |
| Uart.Divisor | c25-pc.c:228 | the divisor is the truncated quotient 115200 / speed modulo 65536, and exactly that quotient for every speed of magnitude 4 or more |
| Uart.LowByte | c25-pc.c:234 | the byte written to DLL lies in 0..255 |
| Uart.HighByte | c25-pc.c:235 | the byte written to DLH lies in 0..255 |
| Uart.DivisorBytes | c25-pc.c:234-235 | the two bytes written to the latch put back together the 16-bit divisor, whatever its sign |
| Uart.DivisorForSupportedSpeeds | c25-pc.c:228 | for the speeds main accepts (150..19200, line 502), the divisor is 115200 / speed truncated, lies in 6..768 and is rebuilt exactly from its two bytes |
| Uart.PortOffset | c25-pc.c:205-210 | only COM1 and COM2 have a BIOS offset: 0 for COM1, 2 for COM2 |
| Uart.LineControl | c25-pc.c:247-254 | a line control byte exists exactly when a port is set, bits is 5..8, stop bits is 1 or 2 and the parity is one of the three constants |
| Uart.LcrByte | c25-pc.c:252-254 | the byte SetOthers computes holds bits - 5 in bits 0-1, the stop-bit flag in bit 2 and the parity constant above them |
| Uart.WaitFor | c25-pc.c:78-88 | the wait succeeds exactly when one of the first 65535 readings shows the bit; it stops at the first such reading; on failure it has made all 65535 readings |
| Uart.SerialOutWrites | c25-pc.c:79-90 | SerialOut's writes start with MCR, write nothing but MCR and TXR with the byte, and write TXR exactly when both waits succeed |
| Uart.Replay | c25-pc.c:79-90 | after a run of writes, every register not written keeps its value, every written register is present, and the register of the final write holds that write |
| Uart.ReplayLastWrite | c25-pc.c:79-90 | after a run of writes, every written register holds the value of its last write |
| Uart.ReplayAppend | c25-pc.c:79-90 | replaying two runs of writes one after the other is replaying them joined |
| Uart.Port.constructor | c25-pc.c:51 | before SetPort no port is set and nothing is written |
| Uart.Port.SetPort | c25-pc.c:202-215 | it succeeds exactly for COM1 or COM2 with a non-zero BIOS word, which becomes portbase; on failure portbase is unchanged |
| Uart.Port.SetSpeed | c25-pc.c:221-239 | it fails, writing nothing, on speed 0 or with no port; otherwise it writes LCR with DLAB set, the divisor's low and high bytes, and LCR as it was, so only the divisor latch changes |
| Uart.Port.SetOthers | c25-pc.c:244-259 | it writes the line control byte exactly when LineControl accepts the arguments, and writes nothing otherwise |
| Uart.Port.SetSerial | c25-pc.c:264-270 | it succeeds exactly when all three steps' conditions hold; it stops at the first failure; the writes and the registers afterwards are given for every outcome: unchanged when SetPort or the speed fails, the new divisor latch when SetOthers fails, the divisor latch and the line control byte on success |
| Uart.Port.SerialOut | c25-pc.c:76-93 | it writes MCR, then writes TXR and returns 0 exactly when both waits succeed; otherwise it returns -1 and TXR is not written; the registers afterwards are its writes replayed |
| Decoding.Session | c25-pc.c:338-367 | the decode loop over an event script: an overflow stays recorded, the loop ends on ESC only if a pass read ESC, and it prints at most one key per event |
| Decoding.DecodeSession | c25-pc.c:329-368 | what the decode loop prints, whether ESC ended it, and the buffer it leaves are those of the session over the event script |
| Decoding.DecodeEvent | c25-pc.c:338-367 | one event: an interrupt, a failed loop test that ends the session with nothing changed, or one pass whose output is the head of the session's output |
| Decoding.DecodePass | c25-pc.c:340-366 | a pass takes one value from the buffer, prints per DecodeStep, keeps the printed key, and quits exactly when the key read is ESC |
| Decoding.SessionReadsRing | c25-pc.c:329-368 | the session's buffer steps form a run of com_int and getccb that ends in the session's final buffer, and what it prints is Shown of the values getccb returned |
| Decoding.DecodesInArrivalOrder | c25-pc.c:338-363 | while no overflow occurred, the session prints the keys of a prefix, in arrival order, of the bytes queued or received, and the rest stay queued |
| Decoding.StoppedSessionIsIdle | c25-pc.c:338-366 | once SError is set or ESC has been read, decode reads and prints nothing more, whatever arrives; the quit flag stays and an overflow stays recorded |
| Decoding.ShownPerValue | c25-pc.c:341-363 | decode prints exactly one key per value taken, except for EMPTY values (including a stored 0xFF) |
| Encoding.Echo | c25-pc.c:450 | the echo never includes EMPTY, holds every other value as often as the input does, and so has one entry per non-EMPTY value |
| Encoding.EchoAppend | c25-pc.c:450 | echoing is done value by value, in order: the echo of a joined sequence is the echoes joined, and one value echoes as itself unless it is EMPTY |
| Encoding.Session | c25-pc.c:447-475 | the encode loop over an event script, with its echo, register writes and buffer steps; an overflow stays recorded |
| Encoding.QuitsOnlyOnEsc | c25-pc.c:453-455 | the session ends on ESC only if some pass read ESC, and it echoes at most one value per event |
| Encoding.EncodeSession | c25-pc.c:412-476 | what the encode loop echoes, whether ESC ended it, the buffer it leaves, every register write it makes, and what the registers then hold are those of the session over the event script |
| Encoding.EncodeEvent | c25-pc.c:447-475 | one event: an interrupt, a failed loop test that ends the session with nothing changed, or one pass whose echo, writes and register effect are the head of the session's |
| Encoding.EncodePass | c25-pc.c:449-473 | a pass takes one value and echoes it unless EMPTY; it quits exactly on ESC, keeping SendChar; otherwise it takes EncodeStep's code and writes what SerialOut writes for its low byte, leaving the registers as those writes replayed |
| Encoding.SessionReadsRing | c25-pc.c:447-475 | the session's buffer steps form a run of com_int and getccb that ends in the session's final buffer, and the echo is the non-EMPTY values getccb returned |
| Encoding.StoppedSessionIsIdle | c25-pc.c:447 | once SError is set or ESC was seen, encode echoes, reads and writes nothing more, and an overflow stays recorded |
| Encoding.SendsOnlyCodes | c25-pc.c:453-473 | encode writes only MCR and TXR, and every byte in TXR is the low byte of a key code 0..15 or of the initial SendChar |
| Encoding.KeyPressSends | c25-pc.c:453-473 | ESC sends nothing and ends the session; a keypad key, in either case, begins the writes with SerialOut of that key's code |

## Left out

- The user interface is not modelled: screen drawing, menus, `flash_key`,
  `delay`, `init_screen` and `ask_routine`.
- Interrupt vectors (`setvects`, `resvects`) are not modelled.
- The interrupt controller mask, IER and the MCR bits of `i_enable`,
  `i_disable`, `comm_on`, `comm_off` and `c_break` are not modelled.
- The end-of-interrupt write to the interrupt controller is not modelled. It
  does not touch the buffer.
- `disable()`/`enable()` are not modelled. Each com_int or getccb call is
  treated as one atomic step, and an event script interleaves them.
- The BIOS data area is an abstract lookup `bios(offset)`. It stands for the
  far-pointer read in SetPort.
- The constants of the serial header are not part of this model. They are
  fields of the parameter record `SerialDefs.HwConsts`.
- Of `main`, only the accepted speed range 150..19200 is used, as the premise
  of `Uart.DivisorForSupportedSpeeds`. Argument parsing, `atoi`, exit codes and
  the menu loop are not modelled.
- The 8250's aliasing of DLL/DLH with TXR/IER under DLAB is not modelled. The
  port model keeps one value per named register.
- The status registers MSR and LSR are given as functions from reading number
  to byte. A real UART's readings depend on time.
- Keyboard input (`kbhit`, `getch`) comes from the event script.
- Keypad.Upper: applies `strupr` to the key alone. In the source, `strupr(&k)`
  gets the address of a single `char`, so it goes on upper-casing the bytes
  after `k` until it meets a NUL. Those bytes lie outside the model.
- Decoding.StoppedSessionIsIdle and Encoding.StoppedSessionIsIdle hold
  because interrupts run only between passes: a pass (loop test, `getccb`,
  print or echo, key handling) is one step. In the source an interrupt can
  also run between the loop test and `getccb`. So a pass whose test ran
  before an overflow can still read, print or send once after SError is set,
  and the model does not capture that.
- A session ends when its event script runs out. The real loops run until
  SError or ESC.
- The result of `SerialOut` is ignored by the encode loop, as in the source.
  The model keeps it in `Uart.Port.SerialOut` only.
- Encoding.CharOf: states no contract of its own. It is the low byte of the
  `int` code, and the properties about it are stated through `SendsOnlyCodes`.
- Encoding.KeyPressSends: for a keypad key, only the first pass's writes are
  stated, not the rest of the session.
