/**
 * The decode loop of c25-pc.c: while SError is clear and ESC has not been
 * pressed, take a value from the receive buffer and, unless it is EMPTY,
 * print the key it names (or, for a byte the table does not know, the key
 * printed last).
 *
 * The receive interrupt runs between any two passes of the loop. A session is
 * therefore modelled over a script of events: an interrupt, or one test of the
 * loop condition followed, when it holds, by one pass of the body. The script
 * also supplies the keyboard: the key waiting when the pass asks kbhit, if
 * any. The session ends at the first test that fails, or when the script does.
 */
module Decoding {
  import opened Wrappers
  import opened SerialDefs
  import opened RxBuffer
  import opened Keypad

  datatype Event = Arrival(iir: Byte, rxr: Byte) | Pass(pressed: Option<char>)

  /** What the session printed, the buffer steps it took, the buffer it left and whether ESC was seen. */
  datatype Outcome = Outcome(shown: seq<char>, performed: seq<RxEvent>, final: RxState, quit: bool)

  ghost function Session(hw: HwConsts, s: RxState, key: char, quit: bool, events: seq<Event>): (o: Outcome)
    requires Fits(s)
    ensures Fits(o.final)
    ensures s.overflow ==> o.final.overflow
    ensures o.quit ==> quit || Pass(Some(ESC)) in events
    ensures |o.shown| <= |events|
    decreases |events|
  {
    if events == [] then Outcome([], [], s, quit)
    else
      match events[0]
      case Arrival(iir, rxr) =>
        var o := Session(hw, ComIntStep(hw, s, iir, rxr), key, quit, events[1..]);
        Outcome(o.shown, [Interrupt(iir, rxr)] + o.performed, o.final, o.quit)
      case Pass(pressed) =>
        if s.overflow || quit then Outcome([], [], s, quit)
        else
          var g := Get(s);
          var out := DecodeStep(key, g.value);
          var o := Session(hw, g.rest, out.GetOr(key), pressed == Some(ESC), events[1..]);
          Outcome(ToSeq(out) + o.shown, [GetCcb] + o.performed, o.final, o.quit)
  }

  /**
   * decode(): `key` is the uninitialised `key` variable's value. Returns what
   * was printed and whether ESC ended the session.
   */
  method DecodeSession(ring: Ring, hw: HwConsts, key0: char, events: seq<Event>)
    returns (shown: seq<char>, quit: bool)
    requires ring.Valid()
    modifies ring`startbuf, ring`endbuf, ring`sError, ring.ccbuf
    ensures ring.Valid() && ring.ccbuf == old(ring.ccbuf)
    ensures var o := Session(hw, old(ring.State()), key0, false, events);
      shown == o.shown && quit == o.quit && ring.State() == o.final
  {
    ghost var total := Session(hw, ring.State(), key0, false, events);
    ghost var rem := total;
    var key := key0;
    quit := false;
    shown := [];
    var i := 0;
    while i < |events|
      invariant ring.Valid() && ring.ccbuf == old(ring.ccbuf)
      invariant 0 <= i <= |events|
      invariant rem == Session(hw, ring.State(), key, quit, events[i..])
      invariant total.shown == shown + rem.shown && total.quit == rem.quit && total.final == rem.final
      decreases |events| - i
    {
      var out, stop;
      out, key, quit, stop := DecodeEvent(ring, hw, key, quit, events[i..]);
      if stop {
        return;
      }
      assert events[i..][1..] == events[i + 1..];
      ghost var next := Session(hw, ring.State(), key, quit, events[i + 1..]);
      assert shown + (out + next.shown) == (shown + out) + next.shown;
      shown := shown + out;
      rem := next;
      i := i + 1;
    }
    assert events[i..] == [];
  }

  /**
   * The first event of `es`: a receive interrupt, or a test of the loop
   * condition (`stop` when it fails) followed by a pass of the body.
   */
  method DecodeEvent(ring: Ring, hw: HwConsts, key: char, quit: bool, es: seq<Event>)
    returns (out: seq<char>, newKey: char, newQuit: bool, stop: bool)
    requires ring.Valid() && es != []
    modifies ring`startbuf, ring`endbuf, ring`sError, ring.ccbuf
    ensures ring.Valid() && ring.ccbuf == old(ring.ccbuf)
    ensures var o := Session(hw, old(ring.State()), key, quit, es);
      stop ==> o == Outcome([], [], ring.State(), quit) && newQuit == quit
    ensures var o := Session(hw, old(ring.State()), key, quit, es);
      var o' := Session(hw, ring.State(), newKey, newQuit, es[1..]);
      !stop ==> o.shown == out + o'.shown && o.quit == o'.quit && o.final == o'.final
  {
    ghost var s := ring.State();
    out, newKey, newQuit, stop := [], key, quit, false;
    match es[0] {
      case Arrival(iir, rxr) =>
        ring.ComInt(hw, iir, rxr);
      case Pass(pressed) =>
        if ring.sError != NOERROR || quit {
          stop := true;
          return;
        }
        var shown;
        shown, newKey, newQuit := DecodePass(ring, key, pressed);
        out := ToSeq(shown);
    }
  }

  /** One pass of the decode loop's body: take a value, print its key, and look at the keyboard. */
  method DecodePass(ring: Ring, key: char, pressed: Option<char>)
    returns (out: Option<char>, newKey: char, quit: bool)
    requires ring.Valid()
    modifies ring`startbuf
    ensures ring.Valid()
    ensures var g := Get(old(ring.State()));
      ring.State() == g.rest && out == DecodeStep(key, g.value)
    ensures newKey == out.GetOr(key) && quit == (pressed == Some(ESC))
  {
    newKey := key;
    out := None;
    var ch := ring.GetCcb();
    if ch != EMPTY {
      match KeyOfByte(ch) {
        case Some(k) =>
          newKey := k;
        case None =>
      }
      out := Some(newKey);
    }
    quit := pressed == Some(ESC);
  }

  /**
   * The session's dealings with the buffer are a run of com_int and getccb
   * steps, and what it prints is the decode loop's output for the values
   * those getccb calls returned.
   */
  lemma {:induction false} SessionReadsRing(hw: HwConsts, s: RxState, key: char, quit: bool, events: seq<Event>)
    requires Fits(s)
    ensures var o := Session(hw, s, key, quit, events);
      var t := RxBuffer.Run(hw, s, o.performed);
      t.final == o.final && o.shown == Shown(key, SignedChars(t.taken))
    decreases |events|
  {
    if events != [] {
      var o := Session(hw, s, key, quit, events);
      match events[0]
      case Arrival(iir, rxr) =>
        var s' := ComIntStep(hw, s, iir, rxr);
        SessionReadsRing(hw, s', key, quit, events[1..]);
        assert o.performed[1..] == Session(hw, s', key, quit, events[1..]).performed;
      case Pass(pressed) =>
        if !(s.overflow || quit) {
          var g := Get(s);
          var out := DecodeStep(key, g.value);
          var o' := Session(hw, g.rest, out.GetOr(key), pressed == Some(ESC), events[1..]);
          SessionReadsRing(hw, g.rest, out.GetOr(key), pressed == Some(ESC), events[1..]);
          assert o.performed[1..] == o'.performed;
          var t' := RxBuffer.Run(hw, g.rest, o'.performed);
          var t := RxBuffer.Run(hw, s, o.performed);
          assert t.taken == Head(s) + t'.taken;
          if s.queue != [] {
            assert (Head(s) + t'.taken)[1..] == t'.taken;
            var vs := SignedChars(t.taken);
            assert vs == [g.value] + SignedChars(t'.taken);
            assert vs[1..] == SignedChars(t'.taken);
            assert Shown(key, vs) == ToSeq(out) + Shown(out.GetOr(key), SignedChars(t'.taken));
          } else {
            assert t.taken == t'.taken;
            assert out == None;
          }
        }
    }
  }

  /**
   * While no overflow has occurred, the session has printed the keys of a
   * prefix of the bytes that were queued and then received, in the order
   * they arrived, and the rest are still queued.
   */
  lemma DecodesInArrivalOrder(hw: HwConsts, s: RxState, key: char, events: seq<Event>)
    requires Fits(s)
    ensures var o := Session(hw, s, key, false, events);
      var t := RxBuffer.Run(hw, s, o.performed);
      !o.final.overflow ==>
        && s.queue + t.stored == t.taken + o.final.queue
        && o.shown == Shown(key, SignedChars(t.taken))
  {
    var o := Session(hw, s, key, false, events);
    SessionReadsRing(hw, s, key, false, events);
    Fifo(hw, s, o.performed);
  }

  /**
   * Once SError is set, or ESC has been read, the session reads and prints
   * nothing more, whatever arrives, and an overflow stays recorded.
   */
  lemma {:induction false} StoppedSessionIsIdle(hw: HwConsts, s: RxState, key: char, quit: bool, events: seq<Event>)
    requires Fits(s) && (s.overflow || quit)
    ensures var o := Session(hw, s, key, quit, events);
      && o.shown == [] && GetCcb !in o.performed
      && o.quit == quit && (s.overflow ==> o.final.overflow)
    decreases |events|
  {
    if events != [] {
      match events[0]
      case Arrival(iir, rxr) =>
        StoppedSessionIsIdle(hw, ComIntStep(hw, s, iir, rxr), key, quit, events[1..]);
      case Pass(_) =>
    }
  }

  /**
   * Every value taken prints exactly one key, except EMPTY, which is what a
   * stored 0xFF reads as: it prints nothing.
   */
  lemma {:induction false} ShownPerValue(key: char, chs: seq<int>)
    ensures |Shown(key, chs)| == |chs| - multiset(chs)[EMPTY]
    decreases |chs|
  {
    if chs != [] {
      var out := DecodeStep(key, chs[0]);
      ShownPerValue(out.GetOr(key), chs[1..]);
      assert chs == [chs[0]] + chs[1..];
      assert multiset(chs) == multiset{chs[0]} + multiset(chs[1..]);
    }
  }
}
