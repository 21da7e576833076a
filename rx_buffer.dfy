/**
 * The receive ring buffer `ccbuf` of c25-pc.c: the interrupt handler `com_int`
 * stores each received byte at `endbuf`, `getccb` takes the byte at `startbuf`,
 * and `SError` records, once and for good, that a byte arrived while the buffer
 * was full.
 *
 * RxState is what a reader can observe of the buffer: the queued bytes, oldest
 * first, and whether the overflow error is set. Receive and Get are the two
 * operations on that view; class Ring is the array-and-indices implementation,
 * proved to act on its view exactly as Receive and Get do.
 */
module RxBuffer {
  import opened SerialDefs

  const SBUFSIZ: nat := 1024
  const NOERROR: int := 0
  const BUFOVFL: int := 1
  /** What getccb returns when nothing is queued. */
  const EMPTY: int := -1

  /**
   * The value `(int) ccbuf[i]` has for a stored byte `b`: Turbo C's `char` is
   * signed, so bytes from 0x80 up come back negative, and 0xFF comes back as
   * the EMPTY sentinel.
   */
  function SignedChar(b: Byte): (v: int)
    ensures -128 <= v < 128 && v % 256 == b as int
    ensures v == EMPTY <==> b as int == 0xFF
  {
    var n := b as int;
    if n < 0x80 then n else n - 0x100
  }

  function SignedChars(bs: seq<Byte>): (vs: seq<int>)
    ensures |vs| == |bs|
  {
    if bs == [] then [] else [SignedChar(bs[0])] + SignedChars(bs[1..])
  }

  /** The buffer as a reader sees it. */
  datatype RxState = RxState(queue: seq<Byte>, overflow: bool)

  /** The buffer never holds more than SBUFSIZ - 1 bytes. */
  predicate Fits(s: RxState) {
    |s.queue| < SBUFSIZ
  }

  /** The interrupt identification value `iir` announces a received byte. */
  predicate IsRxInterrupt(hw: HwConsts, iir: Byte) {
    iir & hw.rxMask == hw.rxId
  }

  /**
   * The receive branch of com_int: with SBUFSIZ - 1 bytes queued the byte
   * still goes in, the write index catches up with the read index, the error
   * is set and every queued byte becomes unreadable; otherwise the byte joins
   * the end of the queue.
   */
  function Receive(s: RxState, b: Byte): (t: RxState)
    requires Fits(s)
    ensures Fits(t)
    ensures s.overflow ==> t.overflow
    ensures t.overflow && !s.overflow ==> t.queue == []
  {
    if |s.queue| == SBUFSIZ - 1 then RxState([], true)
    else RxState(s.queue + [b], s.overflow)
  }

  /** com_int as a whole: interrupts other than a receive leave the buffer alone. */
  function ComIntStep(hw: HwConsts, s: RxState, iir: Byte, rxr: Byte): (t: RxState)
    requires Fits(s)
    ensures Fits(t)
    ensures s.overflow ==> t.overflow
  {
    if IsRxInterrupt(hw, iir) then Receive(s, rxr) else s
  }

  /** The value getccb returns and the buffer it leaves. */
  datatype Taken = Taken(value: int, rest: RxState)

  function Get(s: RxState): (g: Taken)
    ensures g.rest.overflow == s.overflow
    ensures |g.rest.queue| <= |s.queue|
  {
    if s.queue == [] then Taken(EMPTY, s)
    else Taken(SignedChar(s.queue[0]), RxState(s.queue[1..], s.overflow))
  }

  /** The bytes a getccb call takes out of the queue: none when it is empty. */
  function Head(s: RxState): (h: seq<Byte>)
    ensures |h| <= 1
  {
    if s.queue == [] then [] else [s.queue[0]]
  }

  /**
   * One atomic step of either side: an interrupt (com_int) or a getccb call.
   * The two interleave in any order.
   */
  datatype RxEvent = Interrupt(iir: Byte, rxr: Byte) | GetCcb

  /** What a run of events did: bytes taken by getccb, bytes stored by com_int, final buffer. */
  datatype Trace = Trace(taken: seq<Byte>, stored: seq<Byte>, final: RxState)

  function Run(hw: HwConsts, s: RxState, evs: seq<RxEvent>): (t: Trace)
    requires Fits(s)
    ensures Fits(t.final)
    ensures s.overflow ==> t.final.overflow
    decreases |evs|
  {
    if evs == [] then Trace([], [], s)
    else
      match evs[0]
      case Interrupt(iir, rxr) =>
        var t := Run(hw, ComIntStep(hw, s, iir, rxr), evs[1..]);
        Trace(t.taken, (if IsRxInterrupt(hw, iir) then [rxr] else []) + t.stored, t.final)
      case GetCcb =>
        var t := Run(hw, Get(s).rest, evs[1..]);
        Trace(Head(s) + t.taken, t.stored, t.final)
  }

  /**
   * FIFO: as long as the error has not been set, every byte that was queued or
   * stored has come out, in the order it went in, or is still queued behind
   * the ones that came out.
   */
  lemma {:induction false} Fifo(hw: HwConsts, s: RxState, evs: seq<RxEvent>)
    requires Fits(s)
    ensures var t := Run(hw, s, evs);
      !t.final.overflow ==> s.queue + t.stored == t.taken + t.final.queue
    decreases |evs|
  {
    if evs != [] {
      var t := Run(hw, s, evs);
      match evs[0]
      case Interrupt(iir, rxr) =>
        var s' := ComIntStep(hw, s, iir, rxr);
        var t' := Run(hw, s', evs[1..]);
        Fifo(hw, s', evs[1..]);
        if !t.final.overflow {
          if IsRxInterrupt(hw, iir) {
            assert s'.queue == s.queue + [rxr] && t.stored == [rxr] + t'.stored;
            Regroup(s.queue, [rxr], t'.stored);
          } else {
            assert t.stored == [] + t'.stored == t'.stored;
          }
        }
      case GetCcb =>
        var s' := Get(s).rest;
        var t' := Run(hw, s', evs[1..]);
        Fifo(hw, s', evs[1..]);
        assert t.taken == Head(s) + t'.taken && t.stored == t'.stored && t.final == t'.final;
        assert s.queue == Head(s) + s'.queue;
        Regroup(Head(s), s'.queue, t'.stored);
        Regroup(Head(s), t'.taken, t'.final.queue);
    }
  }

  lemma Regroup<T>(a: seq<T>, b: seq<T>, c: seq<T>)
    ensures (a + b) + c == a + (b + c)
  {
  }

  /**
   * A coarse bound: when the bytes already queued plus every byte stored
   * during the run stay below SBUFSIZ, whatever the reads do, the error is
   * never set. OverflowExactlyWhenReceivedFull is the exact condition.
   */
  lemma {:induction false} BoundedTrafficNeverOverflows(hw: HwConsts, s: RxState, evs: seq<RxEvent>)
    requires Fits(s) && !s.overflow
    requires |s.queue| + |Run(hw, s, evs).stored| < SBUFSIZ
    ensures !Run(hw, s, evs).final.overflow
    decreases |evs|
  {
    if evs != [] {
      match evs[0]
      case Interrupt(iir, rxr) =>
        BoundedTrafficNeverOverflows(hw, ComIntStep(hw, s, iir, rxr), evs[1..]);
      case GetCcb =>
        BoundedTrafficNeverOverflows(hw, Get(s).rest, evs[1..]);
    }
  }

  /** At every moment of the run, each receive interrupt finds fewer than SBUFSIZ - 1 bytes queued. */
  predicate NeverReceivesWhenFull(hw: HwConsts, s: RxState, evs: seq<RxEvent>)
    requires Fits(s)
    decreases |evs|
  {
    if evs == [] then true
    else if evs[0].GetCcb? then NeverReceivesWhenFull(hw, Get(s).rest, evs[1..])
    else
      var e := evs[0];
      && (IsRxInterrupt(hw, e.iir) ==> |s.queue| < SBUFSIZ - 1)
      && NeverReceivesWhenFull(hw, ComIntStep(hw, s, e.iir, e.rxr), evs[1..])
  }

  /**
   * The error is set during a run exactly when, at some moment, a receive
   * interrupt finds SBUFSIZ - 1 bytes queued, however many bytes pass through
   * the buffer in all.
   */
  lemma {:induction false} OverflowExactlyWhenReceivedFull(hw: HwConsts, s: RxState, evs: seq<RxEvent>)
    requires Fits(s) && !s.overflow
    ensures Run(hw, s, evs).final.overflow <==> !NeverReceivesWhenFull(hw, s, evs)
    decreases |evs|
  {
    if evs != [] {
      match evs[0]
      case Interrupt(iir, rxr) =>
        var s' := ComIntStep(hw, s, iir, rxr);
        if !s'.overflow {
          OverflowExactlyWhenReceivedFull(hw, s', evs[1..]);
        }
      case GetCcb =>
        OverflowExactlyWhenReceivedFull(hw, Get(s).rest, evs[1..]);
    }
  }

  /** Every event is a receive interrupt. */
  predicate AllReceive(hw: HwConsts, evs: seq<RxEvent>) {
    forall i :: 0 <= i < |evs| ==> evs[i].Interrupt? && IsRxInterrupt(hw, evs[i].iir)
  }

  /**
   * Overflow destroys rather than rejects: filling the buffer with SBUFSIZ
   * received bytes and no reader sets the error and leaves nothing readable,
   * not even the SBUFSIZ - 1 bytes that did fit.
   */
  lemma {:induction false} FillingPastCapacityLosesEverything(hw: HwConsts, s: RxState, evs: seq<RxEvent>)
    requires Fits(s) && !s.overflow && AllReceive(hw, evs)
    requires |s.queue| + |evs| == SBUFSIZ
    ensures Run(hw, s, evs).final == RxState([], true)
    ensures Run(hw, s, evs).taken == []
    decreases |evs|
  {
    assert evs[0].Interrupt? && IsRxInterrupt(hw, evs[0].iir);
    var s' := ComIntStep(hw, s, evs[0].iir, evs[0].rxr);
    if |evs| == 1 {
      assert s' == RxState([], true);
    } else {
      assert s'.queue == s.queue + [evs[0].rxr];
      assert AllReceive(hw, evs[1..]) by {
        forall i | 0 <= i < |evs[1..]|
          ensures evs[1..][i].Interrupt? && IsRxInterrupt(hw, evs[1..][i].iir)
        {
          assert evs[1..][i] == evs[i + 1];
        }
      }
      FillingPastCapacityLosesEverything(hw, s', evs[1..]);
    }
  }

  /**
   * The bytes of the ring `c` from index `st` up to, not including, index
   * `en`, wrapping at the end.
   */
  ghost function Window(c: seq<Byte>, st: nat, en: nat): (w: seq<Byte>)
    requires |c| == SBUFSIZ && st < SBUFSIZ && en < SBUFSIZ
    ensures |w| == if st <= en then en - st else SBUFSIZ - st + en
  {
    if st <= en then c[st..en] else c[st..] + c[..en]
  }

  /** The index after `i` in the ring. */
  function Next(i: nat): (j: nat)
    requires i < SBUFSIZ
    ensures j < SBUFSIZ && j == (i + 1) % SBUFSIZ
  {
    if i + 1 == SBUFSIZ then 0 else i + 1
  }

  /**
   * Storing `b` at the write index `e` and advancing it by one, wrapping,
   * appends `b` to the window, unless the write index catches up with the
   * read index, which leaves an empty window.
   */
  lemma WindowAfterWrite(c: seq<Byte>, st: nat, e: nat, b: Byte)
    requires |c| == SBUFSIZ && st < SBUFSIZ && e < SBUFSIZ
    ensures Next(e) == st <==> |Window(c, st, e)| == SBUFSIZ - 1
    ensures Next(e) != st ==> Window(c[e := b], st, Next(e)) == Window(c, st, e) + [b]
    ensures Next(e) == st ==> Window(c[e := b], st, Next(e)) == []
  {
    var c' := c[e := b];
    if Next(e) != st {
      if st <= e && e + 1 < SBUFSIZ {
        assert c'[st..e + 1] == c[st..e] + [b];
      } else if st <= e {
        assert c'[st..] == c[st..e] + [b];
        assert c'[..0] == [];
      } else {
        assert c'[st..] == c[st..];
        assert c'[..e + 1] == c[..e] + [b];
      }
    }
  }

  /**
   * Advancing the read index `st` by one, wrapping, when it has not met the
   * write index `en`, drops the first byte of the window, which is `c[st]`.
   */
  lemma WindowAfterRead(c: seq<Byte>, st: nat, en: nat)
    requires |c| == SBUFSIZ && st < SBUFSIZ && en < SBUFSIZ && st != en
    ensures Window(c, st, en) != [] && Window(c, st, en)[0] == c[st]
    ensures Window(c, Next(st), en) == Window(c, st, en)[1..]
  {
    if st < en {
      assert c[st + 1..en] == c[st..en][1..];
    } else if st + 1 < SBUFSIZ {
      ReadAcrossTheEnd(c, st, en);
    } else {
      ReadTheLastSlot(c, st, en);
    }
  }

  lemma ReadAcrossTheEnd(c: seq<Byte>, st: nat, en: nat)
    requires |c| == SBUFSIZ && en < st && st + 1 < SBUFSIZ
    ensures Window(c, st, en) != [] && Window(c, st, en)[0] == c[st]
    ensures Window(c, st + 1, en) == Window(c, st, en)[1..]
  {
    assert c[st + 1..] == c[st..][1..];
    assert (c[st..] + c[..en])[1..] == c[st..][1..] + c[..en];
  }

  lemma ReadTheLastSlot(c: seq<Byte>, st: nat, en: nat)
    requires |c| == SBUFSIZ && en < st && st + 1 == SBUFSIZ
    ensures Window(c, st, en) != [] && Window(c, st, en)[0] == c[st]
    ensures Window(c, 0, en) == Window(c, st, en)[1..]
  {
    assert c[st..] == [c[st]];
    assert c[0..en] == c[..en];
  }

  /**
   * The buffer itself: the array `ccbuf`, the read index `startbuf`, the write
   * index `endbuf` and the error `SError`. Each method is one atomic step.
   */
  class Ring {
    var ccbuf: array<Byte>
    var startbuf: nat
    var endbuf: nat
    var sError: int

    ghost predicate Valid()
      reads this
    {
      && ccbuf.Length == SBUFSIZ
      && startbuf < SBUFSIZ
      && endbuf < SBUFSIZ
      && (sError == NOERROR || sError == BUFOVFL)
    }

    /** The queued bytes: from startbuf up to, not including, endbuf, wrapping at the end of the array. */
    ghost function Queued(): (q: seq<Byte>)
      reads this, ccbuf
      requires Valid()
      ensures |q| == (endbuf - startbuf) % SBUFSIZ
    {
      Window(ccbuf[..], startbuf, endbuf)
    }

    ghost function State(): (s: RxState)
      reads this, ccbuf
      requires Valid()
      ensures Fits(s)
    {
      RxState(Queued(), sError == BUFOVFL)
    }

    /** The program's start: a zeroed static array, both indices 0, no error. */
    constructor ()
      ensures Valid() && fresh(ccbuf)
      ensures State() == RxState([], false)
      ensures startbuf == 0 && endbuf == 0 && sError == NOERROR
    {
      ccbuf := new Byte[SBUFSIZ](_ => 0);
      startbuf, endbuf := 0, 0;
      sError := NOERROR;
    }

    /** initserial's `endbuf = startbuf = 0`: the queue empties; the error stays as it was. */
    method Reset()
      requires Valid()
      modifies this`startbuf, this`endbuf
      ensures Valid()
      ensures State() == RxState([], old(State()).overflow)
      ensures sError == old(sError)
      ensures startbuf == 0 && endbuf == 0
    {
      endbuf := 0;
      startbuf := 0;
    }

    /**
     * com_int: on a receive interrupt, flag an overflow when the write index
     * is about to meet the read index, then store the byte and advance the
     * write index regardless (masking with SBUFSIZ - 1 is the remainder by the
     * power of two SBUFSIZ).
     */
    method ComInt(hw: HwConsts, iir: Byte, rxr: Byte)
      requires Valid()
      modifies this`endbuf, this`sError, ccbuf
      ensures Valid()
      ensures State() == ComIntStep(hw, old(State()), iir, rxr)
      ensures startbuf == old(startbuf)
      ensures IsRxInterrupt(hw, iir) ==> ccbuf[old(endbuf)] == rxr && endbuf == Next(old(endbuf))
      ensures IsRxInterrupt(hw, iir) ==> sError == if Next(old(endbuf)) == startbuf then BUFOVFL else old(sError)
      ensures !IsRxInterrupt(hw, iir) ==> endbuf == old(endbuf) && sError == old(sError) && ccbuf[..] == old(ccbuf[..])
    {
      if iir & hw.rxMask == hw.rxId {
        ghost var c := ccbuf[..];
        ghost var e := endbuf;
        if Next(endbuf) == startbuf {
          sError := BUFOVFL;
        }
        ccbuf[endbuf] := rxr;
        endbuf := Next(endbuf);
        assert ccbuf[..] == c[e := rxr];
        WindowAfterWrite(c, startbuf, e, rxr);
      }
    }

    /**
     * getccb: EMPTY when the indices meet; otherwise the signed value of the
     * byte at the read index, and the read index moves on by one, wrapping.
     */
    method GetCcb() returns (res: int)
      requires Valid()
      modifies this`startbuf
      ensures Valid()
      ensures res == Get(old(State())).value
      ensures State() == Get(old(State())).rest
      ensures endbuf == old(endbuf) && sError == old(sError)
      ensures startbuf == if old(startbuf) == endbuf then old(startbuf) else Next(old(startbuf))
    {
      if endbuf == startbuf {
        return EMPTY;
      }
      WindowAfterRead(ccbuf[..], startbuf, endbuf);
      res := SignedChar(ccbuf[startbuf]);
      startbuf := Next(startbuf);
    }
  }
}
