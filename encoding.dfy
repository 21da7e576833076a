/**
 * The encode loop of c25-pc.c: while SError is clear and ESC has not been
 * pressed, echo a value from the receive buffer (unless it is EMPTY), wait for
 * a key, and, unless it is ESC, send its code to the board with SerialOut.
 *
 * As for decoding, a session runs over a script of events: a receive
 * interrupt, or one test of the loop condition followed, when it holds, by one
 * pass of the body. The script supplies the key getch returns in that pass and
 * the status readings SerialOut's two waits see.
 */
module Encoding {
  import opened SerialDefs
  import opened RxBuffer
  import opened Keypad
  import opened Uart

  datatype Event = Arrival(iir: Byte, rxr: Byte) | Pass(k: char, msr: nat -> Byte, lsr: nat -> Byte)

  /** What the session echoed, the register writes it made, its buffer steps, the buffer it left, and whether ESC was seen. */
  datatype Outcome = Outcome(echoed: seq<int>, writes: seq<RegWrite>, performed: seq<RxEvent>, final: RxState, quit: bool)

  /** `SerialOut(SendChar)` passes the int to a `char` parameter: only its low byte reaches the wire. */
  function CharOf(code: int): (b: Byte) {
    (code % 256) as Byte
  }

  /** The values getccb returned that the loop echoes: all but EMPTY. */
  function Echo(vs: seq<int>): (e: seq<int>)
    ensures forall i :: 0 <= i < |e| ==> e[i] != EMPTY
    ensures forall v :: v != EMPTY ==> multiset(e)[v] == multiset(vs)[v]
    ensures |e| == |vs| - multiset(vs)[EMPTY]
    decreases |vs|
  {
    if vs == [] then []
    else
      assert vs == [vs[0]] + vs[1..];
      (if vs[0] == EMPTY then [] else [vs[0]]) + Echo(vs[1..])
  }

  /** Echo keeps the order of the values: it echoes a run of values piece by piece, one value at a time. */
  lemma {:induction false} EchoAppend(a: seq<int>, b: seq<int>)
    ensures Echo(a + b) == Echo(a) + Echo(b)
    ensures |a| == 1 ==> Echo(a) == if a[0] == EMPTY then [] else [a[0]]
    decreases |a|
  {
    if a != [] {
      assert (a + b)[1..] == a[1..] + b;
      EchoAppend(a[1..], b);
      Regroup(if a[0] == EMPTY then [] else [a[0]], Echo(a[1..]), Echo(b));
    } else {
      assert a + b == b;
    }
  }

  /** Replaying `ws` over `m` and `ws'` over `m'` leave the registers holding the same values. */
  ghost predicate SameRegisters(m: map<Reg, Byte>, ws: seq<RegWrite>, m': map<Reg, Byte>, ws': seq<RegWrite>) {
    Replay(m, ws) == Replay(m', ws')
  }

  /** Some pass of the script reads ESC. */
  predicate EscPressed(events: seq<Event>) {
    exists i :: 0 <= i < |events| && events[i].Pass? && events[i].k == ESC
  }

  ghost function Session(hw: HwConsts, s: RxState, sendChar: int, quit: bool, events: seq<Event>): (o: Outcome)
    requires Fits(s)
    ensures Fits(o.final)
    ensures s.overflow ==> o.final.overflow
    decreases |events|
  {
    if events == [] then Outcome([], [], [], s, quit)
    else
      match events[0]
      case Arrival(iir, rxr) =>
        var o := Session(hw, ComIntStep(hw, s, iir, rxr), sendChar, quit, events[1..]);
        Outcome(o.echoed, o.writes, [Interrupt(iir, rxr)] + o.performed, o.final, o.quit)
      case Pass(k, msr, lsr) =>
        if s.overflow || quit then Outcome([], [], [], s, quit)
        else
          var g := Get(s);
          var echo := if g.value == EMPTY then [] else [g.value];
          match EncodeStep(sendChar, k)
          case Quit =>
            var o := Session(hw, g.rest, sendChar, true, events[1..]);
            Outcome(echo + o.echoed, o.writes, [GetCcb] + o.performed, o.final, o.quit)
          case Send(code) =>
            var o := Session(hw, g.rest, code, false, events[1..]);
            Outcome(echo + o.echoed, SerialOutWrites(hw, CharOf(code), msr, lsr) + o.writes,
                    [GetCcb] + o.performed, o.final, o.quit)
  }

  /** The register writes of one pass: none on ESC, otherwise SerialOut's. */
  ghost function PassWrites(hw: HwConsts, quit: bool, sendChar: int, msr: nat -> Byte, lsr: nat -> Byte): (ws: seq<RegWrite>) {
    if quit then [] else SerialOutWrites(hw, CharOf(sendChar), msr, lsr)
  }

  /** One pass of the encode loop's body; SerialOut's result is ignored, as in the source. */
  method EncodePass(ring: Ring, port: Port, sendChar: int, k: char, msr: nat -> Byte, lsr: nat -> Byte)
    returns (echo: seq<int>, newSendChar: int, quit: bool)
    requires ring.Valid()
    modifies ring`startbuf, port`regs, port`writes
    ensures ring.Valid()
    ensures var g := Get(old(ring.State()));
      ring.State() == g.rest && echo == (if g.value == EMPTY then [] else [g.value])
    ensures quit <==> k == ESC
    ensures quit ==> newSendChar == sendChar
    ensures !quit ==> newSendChar == EncodeStep(sendChar, k).code
    ensures port.writes == old(port.writes) + PassWrites(port.hw, quit, newSendChar, msr, lsr)
    ensures port.regs == Replay(old(port.regs), PassWrites(port.hw, quit, newSendChar, msr, lsr))
  {
    var ch := ring.GetCcb();
    echo := if ch != EMPTY then [ch] else [];
    newSendChar := sendChar;
    quit := false;
    match KeyCode(k) {
      case Some(code) =>
        newSendChar := code;
      case None =>
        quit := Upper(k) == ESC;
    }
    if !quit {
      var _ := port.SerialOut(CharOf(newSendChar), msr, lsr);
    }
  }

  /**
   * encode(): `sendChar0` is the uninitialised SendChar's value. Returns what
   * was echoed and whether ESC ended the session.
   */
  method EncodeSession(ring: Ring, port: Port, sendChar0: int, events: seq<Event>)
    returns (echoed: seq<int>, quit: bool)
    requires ring.Valid()
    modifies ring`startbuf, ring`endbuf, ring`sError, ring.ccbuf, port`regs, port`writes
    ensures ring.Valid() && ring.ccbuf == old(ring.ccbuf)
    ensures var o := Session(port.hw, old(ring.State()), sendChar0, false, events);
      && echoed == o.echoed && quit == o.quit && ring.State() == o.final
      && port.writes == old(port.writes) + o.writes
      && port.regs == Replay(old(port.regs), o.writes)
  {
    ghost var total := Session(port.hw, ring.State(), sendChar0, false, events);
    ghost var rem := total;
    var sendChar := sendChar0;
    quit := false;
    echoed := [];
    var i := 0;
    while i < |events|
      invariant ring.Valid() && ring.ccbuf == old(ring.ccbuf)
      invariant 0 <= i <= |events|
      invariant rem == Session(port.hw, ring.State(), sendChar, quit, events[i..])
      invariant total.echoed == echoed + rem.echoed && total.quit == rem.quit && total.final == rem.final
      invariant old(port.writes) + total.writes == port.writes + rem.writes
      invariant SameRegisters(old(port.regs), total.writes, port.regs, rem.writes)
      decreases |events| - i
    {
      var stop;
      echoed, sendChar, quit, stop := EncodeEvent(ring, port, echoed, sendChar, quit, events[i..]);
      if stop {
        return;
      }
      assert events[i..][1..] == events[i + 1..];
      rem := Session(port.hw, ring.State(), sendChar, quit, events[i + 1..]);
      i := i + 1;
    }
    assert port.writes + rem.writes == port.writes;
  }

  /**
   * The first event of `es`: a receive interrupt, or a test of the loop
   * condition (`stop` when it fails) followed by a pass of the body. What
   * this event echoes is appended to `echoed`.
   */
  method EncodeEvent(ring: Ring, port: Port, echoed: seq<int>, sendChar: int, quit: bool, es: seq<Event>)
    returns (newEchoed: seq<int>, newSendChar: int, newQuit: bool, stop: bool)
    requires ring.Valid() && es != []
    modifies ring`startbuf, ring`endbuf, ring`sError, ring.ccbuf, port`regs, port`writes
    ensures ring.Valid() && ring.ccbuf == old(ring.ccbuf)
    ensures var o := Session(port.hw, old(ring.State()), sendChar, quit, es);
      stop ==>
        && o == Outcome([], [], [], ring.State(), quit) && newQuit == quit
        && newEchoed == echoed && port.writes == old(port.writes) && port.regs == old(port.regs)
    ensures var o := Session(port.hw, old(ring.State()), sendChar, quit, es);
      var o' := Session(port.hw, ring.State(), newSendChar, newQuit, es[1..]);
      !stop ==>
        && newEchoed + o'.echoed == echoed + o.echoed
        && port.writes + o'.writes == old(port.writes) + o.writes
        && SameRegisters(old(port.regs), o.writes, port.regs, o'.writes)
        && o.quit == o'.quit && o.final == o'.final
  {
    ghost var s := ring.State();
    newEchoed, newSendChar, newQuit, stop := echoed, sendChar, quit, false;
    match es[0] {
      case Arrival(iir, rxr) =>
        ring.ComInt(port.hw, iir, rxr);
        ArrivalStep(port.hw, s, sendChar, quit, es);
      case Pass(k, msr, lsr) =>
        if ring.sError != NOERROR || quit {
          StopStep(port.hw, s, sendChar, quit, es);
          stop := true;
          return;
        }
        ghost var w := port.writes;
        ghost var m := port.regs;
        var echo;
        echo, newSendChar, newQuit := EncodePass(ring, port, sendChar, k, msr, lsr);
        PassStep(port.hw, s, sendChar, es, echo, ring.State(), newSendChar, newQuit);
        ghost var o' := Session(port.hw, ring.State(), newSendChar, newQuit, es[1..]);
        ghost var head := PassWrites(port.hw, newQuit, newSendChar, msr, lsr);
        Regroup(w, head, o'.writes);
        ReplayAppend(m, head, o'.writes);
        Regroup(echoed, echo, o'.echoed);
        newEchoed := echoed + echo;
    }
  }

  lemma StopStep(hw: HwConsts, s: RxState, sendChar: int, quit: bool, es: seq<Event>)
    requires Fits(s) && (s.overflow || quit) && es != [] && es[0].Pass?
    ensures Session(hw, s, sendChar, quit, es) == Outcome([], [], [], s, quit)
  {
  }

  lemma ArrivalStep(hw: HwConsts, s: RxState, sendChar: int, quit: bool, es: seq<Event>)
    requires Fits(s) && es != [] && es[0].Arrival?
    ensures var o := Session(hw, s, sendChar, quit, es);
      var o' := Session(hw, ComIntStep(hw, s, es[0].iir, es[0].rxr), sendChar, quit, es[1..]);
      o.echoed == o'.echoed && o.writes == o'.writes && o.final == o'.final && o.quit == o'.quit
  {
  }

  lemma PassStep(hw: HwConsts, s: RxState, sendChar: int, es: seq<Event>,
                  echo: seq<int>, s': RxState, sendChar': int, quit': bool)
    requires Fits(s) && !s.overflow && es != [] && es[0].Pass?
    requires s' == Get(s).rest && echo == (if Get(s).value == EMPTY then [] else [Get(s).value])
    requires quit' <==> es[0].k == ESC
    requires quit' ==> sendChar' == sendChar
    requires !quit' ==> sendChar' == EncodeStep(sendChar, es[0].k).code
    ensures var o := Session(hw, s, sendChar, false, es);
      var o' := Session(hw, s', sendChar', quit', es[1..]);
      && o.echoed == echo + o'.echoed && o.final == o'.final && o.quit == o'.quit
      && o.writes == PassWrites(hw, quit', sendChar', es[0].msr, es[0].lsr) + o'.writes
  {
  }

  /**
   * The session's dealings with the buffer are a run of com_int and getccb
   * steps, and what it echoes is every value those getccb calls returned
   * other than EMPTY.
   */
  lemma {:induction false} SessionReadsRing(hw: HwConsts, s: RxState, sendChar: int, quit: bool, events: seq<Event>)
    requires Fits(s)
    ensures var o := Session(hw, s, sendChar, quit, events);
      var t := RxBuffer.Run(hw, s, o.performed);
      t.final == o.final && o.echoed == Echo(SignedChars(t.taken))
    decreases |events|
  {
    if events != [] {
      var o := Session(hw, s, sendChar, quit, events);
      match events[0]
      case Arrival(iir, rxr) =>
        var s' := ComIntStep(hw, s, iir, rxr);
        SessionReadsRing(hw, s', sendChar, quit, events[1..]);
        assert o.performed[1..] == Session(hw, s', sendChar, quit, events[1..]).performed;
      case Pass(k, msr, lsr) =>
        if !(s.overflow || quit) {
          var g := Get(s);
          var echo := if g.value == EMPTY then [] else [g.value];
          var a := EncodeStep(sendChar, k);
          var sendChar', quit' := if a.Quit? then sendChar else a.code, a.Quit?;
          var o' := Session(hw, g.rest, sendChar', quit', events[1..]);
          SessionReadsRing(hw, g.rest, sendChar', quit', events[1..]);
          PassStep(hw, s, sendChar, events, echo, g.rest, sendChar', quit');
          assert o.performed == [GetCcb] + o'.performed;
          TakeThenRun(hw, s, o.performed, o'.performed, o.echoed, o'.echoed);
        }
    }
  }

  /** A getccb followed by a run: the value it takes heads what is echoed, unless it is EMPTY. */
  lemma TakeThenRun(hw: HwConsts, s: RxState, evs: seq<RxEvent>, evs': seq<RxEvent>, e: seq<int>, e': seq<int>)
    requires Fits(s) && evs == [GetCcb] + evs'
    requires e == (if Get(s).value == EMPTY then [] else [Get(s).value]) + e'
    requires e' == Echo(SignedChars(RxBuffer.Run(hw, Get(s).rest, evs').taken))
    ensures RxBuffer.Run(hw, s, evs).final == RxBuffer.Run(hw, Get(s).rest, evs').final
    ensures e == Echo(SignedChars(RxBuffer.Run(hw, s, evs).taken))
  {
    assert evs[0] == GetCcb && evs[1..] == evs';
    var t' := RxBuffer.Run(hw, Get(s).rest, evs');
    var t := RxBuffer.Run(hw, s, evs);
    assert t.taken == Head(s) + t'.taken;
    if s.queue != [] {
      var vs := SignedChars(t.taken);
      assert t.taken[1..] == t'.taken;
      assert vs == [vs[0]] + SignedChars(t'.taken);
      EchoAppend([vs[0]], SignedChars(t'.taken));
    } else {
      assert t.taken == t'.taken;
    }
  }

  /** The session ends on ESC only when some pass read ESC, and it echoes at most one value per event. */
  lemma {:induction false} QuitsOnlyOnEsc(hw: HwConsts, s: RxState, sendChar: int, quit: bool, events: seq<Event>)
    requires Fits(s)
    ensures var o := Session(hw, s, sendChar, quit, events);
      (o.quit ==> quit || EscPressed(events)) && |o.echoed| <= |events|
    decreases |events|
  {
    if events != [] {
      var o := Session(hw, s, sendChar, quit, events);
      match events[0]
      case Arrival(iir, rxr) =>
        QuitsOnlyOnEsc(hw, ComIntStep(hw, s, iir, rxr), sendChar, quit, events[1..]);
        EscPressedLater(events);
      case Pass(k, msr, lsr) =>
        if !(s.overflow || quit) {
          var a := EncodeStep(sendChar, k);
          var sendChar', quit' := if a.Quit? then sendChar else a.code, a.Quit?;
          QuitsOnlyOnEsc(hw, Get(s).rest, sendChar', quit', events[1..]);
          EscPressedLater(events);
          if quit' {
            assert events[0].Pass? && events[0].k == ESC;
          }
        }
    }
  }

  /** ESC read later in the script is ESC read in the script. */
  lemma EscPressedLater(events: seq<Event>)
    requires events != []
    ensures EscPressed(events[1..]) ==> EscPressed(events)
  {
    if EscPressed(events[1..]) {
      var i :| 0 <= i < |events[1..]| && events[1..][i].Pass? && events[1..][i].k == ESC;
      assert events[i + 1] == events[1..][i];
    }
  }

  /**
   * Once SError is set, or ESC has been seen, the session echoes and sends
   * nothing more, whatever arrives, and an overflow stays recorded.
   */
  lemma {:induction false} StoppedSessionIsIdle(hw: HwConsts, s: RxState, sendChar: int, quit: bool, events: seq<Event>)
    requires Fits(s) && (s.overflow || quit)
    ensures var o := Session(hw, s, sendChar, quit, events);
      && o.echoed == [] && o.writes == [] && GetCcb !in o.performed
      && o.quit == quit && (s.overflow ==> o.final.overflow)
    decreases |events|
  {
    if events != [] {
      match events[0]
      case Arrival(iir, rxr) =>
        StoppedSessionIsIdle(hw, ComIntStep(hw, s, iir, rxr), sendChar, quit, events[1..]);
      case Pass(_, _, _) =>
    }
  }

  /** Every write raises MCR or puts in TXR the low byte of a key code, 0 to 15, or of `first`. */
  ghost predicate OnlyCodes(hw: HwConsts, ws: seq<RegWrite>, first: int) {
    forall i :: 0 <= i < |ws| ==>
      || ws[i] == RegWrite(MCR, hw.mcrActive)
      || exists c :: (0 <= c < 16 || c == first) && ws[i] == RegWrite(TXR, CharOf(c))
  }

  /**
   * The session writes nothing but MCR and TXR, and every byte it puts in TXR
   * is a key code, 0 to 15, or the low byte of what SendChar held when the
   * session began (a first key that matches no case resends it).
   */
  lemma {:induction false} SendsOnlyCodes(hw: HwConsts, s: RxState, sendChar: int, first: int, quit: bool, events: seq<Event>)
    requires Fits(s)
    requires 0 <= sendChar < 16 || sendChar == first
    ensures OnlyCodes(hw, Session(hw, s, sendChar, quit, events).writes, first)
    decreases |events|
  {
    if events != [] {
      match events[0]
      case Arrival(iir, rxr) =>
        var s' := ComIntStep(hw, s, iir, rxr);
        SendsOnlyCodes(hw, s', sendChar, first, quit, events[1..]);
        assert Session(hw, s, sendChar, quit, events).writes == Session(hw, s', sendChar, quit, events[1..]).writes;
      case Pass(k, msr, lsr) =>
        if !(s.overflow || quit) {
          var g := Get(s);
          match EncodeStep(sendChar, k)
          case Quit =>
            SendsOnlyCodes(hw, g.rest, sendChar, first, true, events[1..]);
            assert Session(hw, s, sendChar, quit, events).writes
              == Session(hw, g.rest, sendChar, true, events[1..]).writes;
          case Send(code) =>
            SendsOnlyCodes(hw, g.rest, code, first, false, events[1..]);
            var head := SerialOutWrites(hw, CharOf(code), msr, lsr);
            assert forall i :: 0 <= i < |head| ==>
              head[i] == RegWrite(MCR, hw.mcrActive) || head[i] == RegWrite(TXR, CharOf(code));
        }
    }
  }

  /**
   * A key press that is ESC sends nothing and ends the session; one that is a
   * keypad key (in either case) raises MCR and, when both waits succeed, sends
   * that key's code.
   */
  lemma KeyPressSends(hw: HwConsts, s: RxState, sendChar: int, k: char, msr: nat -> Byte, lsr: nat -> Byte, events: seq<Event>)
    requires Fits(s) && !s.overflow
    ensures var o := Session(hw, s, sendChar, false, [Pass(k, msr, lsr)] + events);
      && (k == ESC ==> o.quit && o.writes == [])
      && (Upper(k) in Keys ==>
            o.writes[..|SerialOutWrites(hw, CharOf(KeyCode(k).value), msr, lsr)|]
              == SerialOutWrites(hw, CharOf(KeyCode(k).value), msr, lsr))
  {
    var evs := [Pass(k, msr, lsr)] + events;
    assert evs[0] == Pass(k, msr, lsr) && evs[1..] == events;
    if k == ESC {
      StoppedSessionIsIdle(hw, Get(s).rest, sendChar, true, events);
    }
  }
}
