/** The transmit half of the EFM32 serial driver as a step machine: foreground calls take several
    steps, and the transmit interrupt may fire between any two of them. */
module Efm32Tx {
  import opened CircularBuffer

  const TX_BUFF_SIZE: nat := 255

  /** The foreground call in progress and what it still has to do. */
  datatype Call =
    | Idle
    | Writing(rest: seq<Byte>)   // xbee_ser_write: bytes still to copy, then enable TXBL
    | Putting(ch: Byte)          // xbee_ser_putchar: TXBL enabled, byte not yet in the ring
    | BreakOn                    // xbee_ser_break( TRUE): tx_break set, TXBL not yet disabled
    | BreakOff                   // xbee_ser_break( FALSE): tx_break cleared, TXBL not yet enabled

  /** Driver state, and three histories: the bytes the ring accepted, the bytes given to the
      USART, and for each accepted byte that left the ring whether it was sent or flushed. */
  datatype Tx = Tx(ring: seq<Byte>, txbl: bool, brk: bool, call: Call,
                   accepted: seq<Byte>, sent: seq<Byte>, fate: seq<bool>)

  datatype Event =
    | WriteStart(buf: seq<Byte>)
    | WriteCopy(n: nat)
    | WriteEnd
    | PutcharEnable(ch: Byte)
    | PutcharStore
    | BreakSet(enabled: bool)
    | BreakMask
    | TxFlush
    | TxIrq

  function Opened(): Tx { Tx([], true, false, Idle, [], [], []) }

  function Enqueue(s: Tx, bytes: seq<Byte>): Tx
  {
    s.(ring := s.ring + bytes, accepted := s.accepted + bytes)
  }

  /** XBEE_TX_IRQ_NAME with TXBL enabled and the transmit buffer ready. */
  function Irq(s: Tx): Tx
  {
    if s.brk || s.ring == [] then s.(txbl := false)
    else s.(ring := s.ring[1..], sent := s.sent + [s.ring[0]], fate := s.fate + [true])
  }

  /** One step. A step that cannot occur in s leaves it unchanged, as do calls the driver refuses. */
  function Step(s: Tx, ev: Event): Tx
  {
    match ev
    case WriteStart(buf) =>
      if s.call.Idle? && !s.brk && |s.ring| <= TX_BUFF_SIZE
      then s.(call := Writing(buf[..Min(Min(|buf|, TX_BUFF_SIZE), TX_BUFF_SIZE - |s.ring|)]))
      else s
    case WriteCopy(n) =>
      if s.call.Writing? && n <= |s.call.rest|
      then Enqueue(s.(call := Writing(s.call.rest[n..])), s.call.rest[..n])
      else s
    case WriteEnd =>
      if s.call == Writing([]) then s.(call := Idle, txbl := true) else s
    case PutcharEnable(ch) =>
      if s.call.Idle? && !s.brk then s.(call := Putting(ch), txbl := true) else s
    case PutcharStore =>
      if !s.call.Putting? then s
      else if |s.ring| < TX_BUFF_SIZE then Enqueue(s, [s.call.ch]).(call := Idle)
      else s.(call := Idle)
    case BreakSet(enabled) =>
      if s.call.Idle? then s.(brk := enabled, call := if enabled then BreakOn else BreakOff) else s
    case BreakMask =>
      if s.call.BreakOn? then s.(txbl := false, call := Idle)
      else if s.call.BreakOff? then s.(txbl := true, call := Idle)
      else s
    case TxFlush =>
      if s.call.Idle? then s.(ring := [], fate := s.fate + seq(|s.ring|, i => false)) else s
    case TxIrq =>
      if s.txbl then Irq(s) else s
  }

  function Run(s: Tx, evs: seq<Event>): Tx
    decreases |evs|
  {
    if evs == [] then s else Run(Step(s, evs[0]), evs[1..])
  }

  // ---------------------------------------------------------------- conservation and order

  /** The bytes whose fate is true, in order. */
  function Kept(bytes: seq<Byte>, fate: seq<bool>): seq<Byte>
    requires |bytes| == |fate|
  {
    if bytes == [] then []
    else Kept(bytes[..|bytes| - 1], fate[..|fate| - 1])
         + (if fate[|fate| - 1] then [bytes[|bytes| - 1]] else [])
  }

  /** The ring is the accepted bytes without those whose fate is decided; what went to the USART
      is those of them that were not flushed, in order. */
  ghost predicate Conserved(s: Tx)
  {
    && |s.fate| + |s.ring| == |s.accepted|
    && s.ring == s.accepted[|s.fate|..]
    && s.sent == Kept(s.accepted[..|s.fate|], s.fate)
    && |s.ring| <= TX_BUFF_SIZE
    && (s.call.Writing? ==> |s.ring| + |s.call.rest| <= TX_BUFF_SIZE)
  }

  lemma KeptSent(bytes: seq<Byte>, fate: seq<bool>, b: Byte)
    requires |bytes| == |fate|
    ensures Kept(bytes + [b], fate + [true]) == Kept(bytes, fate) + [b]
  {
    assert (bytes + [b])[..|bytes|] == bytes && (fate + [true])[..|fate|] == fate;
  }

  lemma {:induction false} KeptFlushed(bytes: seq<Byte>, fate: seq<bool>, more: seq<Byte>)
    requires |bytes| == |fate|
    ensures Kept(bytes + more, fate + seq(|more|, i => false)) == Kept(bytes, fate)
  {
    if more == [] {
      assert bytes + more == bytes && fate + seq(|more|, i => false) == fate;
    } else {
      var m := |more| - 1;
      KeptFlushed(bytes, fate, more[..m]);
      assert (bytes + more)[..|bytes| + m] == bytes + more[..m];
      assert (fate + seq(|more|, i => false))[..|fate| + m] == fate + seq(m, i => false);
    }
  }

  lemma ConservedIrq(s: Tx)
    requires Conserved(s)
    ensures Conserved(Irq(s))
  {
    var done := |s.fate|;
    if !s.brk && s.ring != [] {
      assert s.accepted[..done + 1] == s.accepted[..done] + [s.ring[0]];
      KeptSent(s.accepted[..done], s.fate, s.ring[0]);
      assert s.ring[1..] == s.accepted[done + 1..];
    }
  }

  lemma ConservedFlush(s: Tx)
    requires Conserved(s) && s.call.Idle?
    ensures Conserved(Step(s, TxFlush))
  {
    var done := |s.fate|;
    KeptFlushed(s.accepted[..done], s.fate, s.ring);
    assert s.accepted[..|s.accepted|] == s.accepted[..done] + s.ring;
  }

  lemma ConservedEnqueue(s: Tx, call: Call, bytes: seq<Byte>)
    requires Conserved(s) && |s.ring| + |bytes| <= TX_BUFF_SIZE
    requires call.Writing? ==> |s.ring| + |bytes| + |call.rest| <= TX_BUFF_SIZE
    ensures Conserved(Enqueue(s.(call := call), bytes))
  {
    var done := |s.fate|;
    assert (s.accepted + bytes)[..done] == s.accepted[..done];
    assert (s.accepted + bytes)[done..] == s.accepted[done..] + bytes;
  }

  lemma ConservedStep(s: Tx, ev: Event)
    requires Conserved(s)
    ensures Conserved(Step(s, ev))
  {
    match ev
    case TxIrq => ConservedIrq(s);
    case TxFlush =>
      if s.call.Idle? {
        ConservedFlush(s);
      }
    case WriteCopy(n) =>
      if s.call.Writing? && n <= |s.call.rest| {
        ConservedEnqueue(s, Writing(s.call.rest[n..]), s.call.rest[..n]);
      }
    case PutcharStore =>
      if s.call.Putting? && |s.ring| < TX_BUFF_SIZE {
        ConservedEnqueue(s, s.call, [s.call.ch]);
      }
    case _ =>
  }

  /** Over every interleaving of calls and interrupts. */
  lemma {:induction false} ConservedRun(s: Tx, evs: seq<Event>)
    requires Conserved(s)
    ensures Conserved(Run(s, evs))
    decreases |evs|
  {
    if evs != [] {
      ConservedStep(s, evs[0]);
      ConservedRun(Step(s, evs[0]), evs[1..]);
    }
  }

  ghost predicate NothingFlushed(s: Tx)
  {
    s.sent + s.ring == s.accepted
  }

  /** Without tx_flush nothing is lost: the bytes sent followed by the bytes in the ring are the
      accepted bytes. */
  lemma {:induction false} NothingLostWithoutFlush(s: Tx, evs: seq<Event>)
    requires NothingFlushed(s)
    requires forall i :: 0 <= i < |evs| ==> evs[i] != TxFlush
    ensures NothingFlushed(Run(s, evs))
    decreases |evs|
  {
    if evs != [] {
      var s' := Step(s, evs[0]);
      assert NothingFlushed(s') by {
        if evs[0] == TxIrq && s.txbl && !s.brk && s.ring != [] {
          assert s.ring == [s.ring[0]] + s.ring[1..];
        }
        match evs[0]
        case WriteCopy(n) =>
          if s.call.Writing? && n <= |s.call.rest| {
            assert s.sent + (s.ring + s.call.rest[..n]) == s.accepted + s.call.rest[..n];
          }
        case PutcharStore =>
          if s.call.Putting? {
            assert s.sent + (s.ring + [s.call.ch]) == s.accepted + [s.call.ch];
          }
        case _ =>
      }
      NothingLostWithoutFlush(s', evs[1..]);
    }
  }

  // ---------------------------------------------------------------- no lost wake-up

  /** Between calls, bytes that wait to be sent have the interrupt enabled. */
  predicate Awake(s: Tx)
  {
    s.call.Idle? && s.ring != [] && !s.brk ==> s.txbl
  }

  /** Awake, with what each call in progress guarantees. */
  predicate WakeInvariant(s: Tx)
  {
    match s.call
    case Idle => Awake(s)
    case Writing(_) => true
    case Putting(_) => s.txbl && !s.brk
    case BreakOn => s.brk
    case BreakOff => !s.brk
  }

  /** The interrupt does not fire between putchar's enable and its enqueue. */
  predicate PairUninterrupted(s: Tx, evs: seq<Event>)
    decreases |evs|
  {
    evs == [] || (!(s.call.Putting? && evs[0] == TxIrq) && PairUninterrupted(Step(s, evs[0]), evs[1..]))
  }

  lemma WakeStep(s: Tx, ev: Event)
    requires WakeInvariant(s) && !(s.call.Putting? && ev == TxIrq)
    ensures WakeInvariant(Step(s, ev))
  {
  }

  /** Interrupts anywhere else, in particular anywhere inside xbee_ser_write, cannot lose the
      wake-up. */
  lemma {:induction false} NoLostWakeup(s: Tx, evs: seq<Event>)
    requires WakeInvariant(s) && PairUninterrupted(s, evs)
    ensures WakeInvariant(Run(s, evs)) && Awake(Run(s, evs))
    decreases |evs|
  {
    if evs != [] {
      WakeStep(s, evs[0]);
      NoLostWakeup(Step(s, evs[0]), evs[1..]);
    }
  }

  function Irqs(n: nat): seq<Event> { seq(n, i => TxIrq) }

  lemma {:induction false} RunAppend(s: Tx, a: seq<Event>, b: seq<Event>)
    ensures Run(s, a + b) == Run(Run(s, a), b)
    decreases |a|
  {
    if a == [] {
      assert a + b == b;
    } else {
      assert (a + b)[1..] == a[1..] + b;
      RunAppend(Step(s, a[0]), a[1..], b);
    }
  }

  /** n interrupts in a row send n waiting bytes. */
  lemma {:induction false} IrqsSend(s: Tx, n: nat)
    requires s.txbl && !s.brk && n <= |s.ring|
    ensures var s' := Run(s, Irqs(n));
            && s'.ring == s.ring[n..] && s'.sent == s.sent + s.ring[..n]
            && s'.txbl && !s'.brk && s'.call == s.call
    decreases n
  {
    if n > 0 {
      assert Irqs(n)[1..] == Irqs(n - 1);
      IrqsSend(Irq(s), n - 1);
      assert s.ring[1..][n - 1..] == s.ring[n..];
      assert [s.ring[0]] + s.ring[1..][..n - 1] == s.ring[..n];
    }
  }

  /** More interrupts than waiting bytes: one finds nothing and disables itself. */
  lemma IrqsDrain(s: Tx, n: nat)
    requires s.txbl && !s.brk
    ensures var s' := Run(s, Irqs(n));
            var k := Min(n, |s.ring|);
            && s'.ring == s.ring[k..] && s'.sent == s.sent + s.ring[..k]
            && (s'.txbl <==> n <= |s.ring|) && !s'.brk && s'.call == s.call
  {
    var k := Min(n, |s.ring|);
    IrqsSend(s, k);
    if n > k {
      var s1 := Run(s, Irqs(k));
      assert Irqs(n) == Irqs(k) + Irqs(n - k);
      RunAppend(s, Irqs(k), Irqs(n - k));
      assert Irqs(n - k)[1..] == Irqs(n - k - 1);
      IrqsIdle(Irq(s1), n - k - 1);
    }
  }

  lemma {:induction false} IrqsIdle(s: Tx, n: nat)
    requires !s.txbl
    ensures Run(s, Irqs(n)) == s
  {
    if n > 0 {
      assert Irqs(n)[1..] == Irqs(n - 1);
      IrqsIdle(s, n - 1);
    }
  }

  /** From an awake state the interrupt alone empties the ring into the USART. */
  lemma EverythingIsSent(s: Tx, n: nat)
    requires Awake(s) && s.call.Idle? && !s.brk && n >= |s.ring|
    ensures Run(s, Irqs(n)).ring == [] && Run(s, Irqs(n)).sent == s.sent + s.ring
  {
    if s.txbl {
      IrqsDrain(s, n);
      assert s.ring[..|s.ring|] == s.ring;
    } else {
      IrqsIdle(s, n);
    }
  }

  /** Exactly when putchar loses the wake-up: when n interrupts fire between its enable and its
      enqueue, the byte is stranded if and only if they outnumber the bytes that were waiting. */
  lemma PutcharLosesWakeup(s: Tx, ch: Byte, n: nat)
    requires s.call.Idle? && !s.brk && |s.ring| <= TX_BUFF_SIZE
    ensures var s' := Run(s, [PutcharEnable(ch)] + Irqs(n) + [PutcharStore]);
            && s'.call.Idle?
            && (Awake(s') <==> n <= |s.ring|)
            && (n > |s.ring| ==> s'.ring == [ch] && !s'.txbl)
  {
    var s1 := Step(s, PutcharEnable(ch));
    RunAppend(s, [PutcharEnable(ch)] + Irqs(n), [PutcharStore]);
    RunAppend(s, [PutcharEnable(ch)], Irqs(n));
    IrqsDrain(s1, n);
  }

  // ---------------------------------------------------------------- what a call has promised

  /** What the USART will have sent of all calls so far, the one in progress included. */
  function Promised(s: Tx): seq<Byte>
  {
    s.sent + s.ring + (if s.call.Writing? then s.call.rest else if s.call.Putting? then [s.call.ch] else [])
  }

  lemma PromiseKeptByIrq(s: Tx)
    ensures Promised(Irq(s)) == Promised(s) && Irq(s).accepted == s.accepted
    ensures Irq(s).call == s.call && Irq(s).brk == s.brk && |Irq(s).ring| <= |s.ring|
  {
    if !s.brk && s.ring != [] {
      assert [s.ring[0]] + s.ring[1..] == s.ring;
      assert s.sent + s.ring == (s.sent + [s.ring[0]]) + s.ring[1..];
    }
  }

  /** Copies and interrupts in any order. */
  lemma {:induction false} CopiesKeepPromise(s: Tx, evs: seq<Event>)
    requires s.call.Writing? && forall i :: 0 <= i < |evs| ==> evs[i].WriteCopy? || evs[i] == TxIrq
    ensures var r := Run(s, evs);
            && r.call.Writing? && r.brk == s.brk && Promised(r) == Promised(s)
            && r.accepted + r.call.rest == s.accepted + s.call.rest
    decreases |evs|
  {
    if evs != [] {
      var s' := Step(s, evs[0]);
      match evs[0] {
        case WriteCopy(n) =>
          if n <= |s.call.rest| {
            CopyMoves(s.sent + s.ring, s.call.rest, n);
            CopyMoves(s.accepted, s.call.rest, n);
            assert s'.sent + s'.ring == (s.sent + s.ring) + s.call.rest[..n];
          }
        case TxIrq =>
          PromiseKeptByIrq(s);
      }
      CopiesKeepPromise(s', evs[1..]);
    }
  }

  lemma CopyMoves(a: seq<Byte>, rest: seq<Byte>, n: nat)
    requires n <= |rest|
    ensures (a + rest[..n]) + rest[n..] == a + rest
  {
  }

  /** However a write is split into copies and interrupted, a finished one has queued exactly the
      bytes that were free at its start: they follow, in order, everything queued before. */
  lemma WriteQueues(s: Tx, buf: seq<Byte>, evs: seq<Event>)
    requires s.call.Idle? && !s.brk && |s.ring| <= TX_BUFF_SIZE
    requires forall i :: 0 <= i < |evs| ==> evs[i].WriteCopy? || evs[i] == TxIrq
    ensures var r := Run(s, [WriteStart(buf)] + evs + [WriteEnd]);
            var k := Min(Min(|buf|, TX_BUFF_SIZE), TX_BUFF_SIZE - |s.ring|);
            r.call.Idle? ==>
              && r.sent + r.ring == s.sent + s.ring + buf[..k] && r.accepted == s.accepted + buf[..k]
              && r.txbl && !r.brk
  {
    var s1 := Step(s, WriteStart(buf));
    RunAppend(s, [WriteStart(buf)] + evs, [WriteEnd]);
    RunAppend(s, [WriteStart(buf)], evs);
    assert Run(s, [WriteStart(buf)]) == s1;
    CopiesKeepPromise(s1, evs);
    var r := Run(s1, evs);
    assert Run(r, [WriteEnd]) == Step(r, WriteEnd);
    if r.call == Writing([]) {
      assert r.accepted + [] == r.accepted && r.sent + r.ring + [] == r.sent + r.ring;
    }
  }

  /** A putchar queues its byte behind everything queued before, however many interrupts fire
      inside it, unless the ring is full and none does. */
  lemma PutcharQueues(s: Tx, ch: Byte, n: nat)
    requires s.call.Idle? && !s.brk && |s.ring| <= TX_BUFF_SIZE
    ensures var r := Run(s, [PutcharEnable(ch)] + Irqs(n) + [PutcharStore]);
            var queued := if |s.ring| == TX_BUFF_SIZE && n == 0 then [] else [ch];
            r.call.Idle? && r.sent + r.ring == s.sent + s.ring + queued && r.accepted == s.accepted + queued
  {
    var s1 := Step(s, PutcharEnable(ch));
    RunAppend(s, [PutcharEnable(ch)] + Irqs(n), [PutcharStore]);
    RunAppend(s, [PutcharEnable(ch)], Irqs(n));
    assert Run(s, [PutcharEnable(ch)]) == s1;
    IrqsDrain(s1, n);
    IrqsAcceptNothing(s1, n);
    var r := Run(s1, Irqs(n));
    assert Run(r, [PutcharStore]) == Step(r, PutcharStore);
    var k := Min(n, |s.ring|);
    assert (s.sent + s.ring[..k]) + s.ring[k..] == s.sent + s.ring;
    assert (r.sent + r.ring) + [ch] == r.sent + (r.ring + [ch]);
  }

  lemma {:induction false} IrqsAcceptNothing(s: Tx, n: nat)
    ensures Run(s, Irqs(n)).accepted == s.accepted
    decreases n
  {
    if n > 0 {
      assert Irqs(n)[1..] == Irqs(n - 1);
      IrqsAcceptNothing(Step(s, TxIrq), n - 1);
    }
  }

  // ---------------------------------------------------------------- break

  /** From the moment a break is set, nothing is sent or accepted over any run, until it is
      cleared. */
  lemma BreakIsSilent(s: Tx, evs: seq<Event>)
    requires s.call.Idle? && forall i :: 0 <= i < |evs| ==> evs[i] != BreakSet(false)
    ensures var r := Run(s, [BreakSet(true)] + evs);
            r.sent == s.sent && r.accepted == s.accepted && r.brk
  {
    assert ([BreakSet(true)] + evs)[1..] == evs;
    SilentRun(Step(s, BreakSet(true)), evs);
  }

  lemma {:induction false} SilentRun(s: Tx, evs: seq<Event>)
    requires s.brk && (s.call.Idle? || s.call.BreakOn?)
    requires forall i :: 0 <= i < |evs| ==> evs[i] != BreakSet(false)
    ensures var r := Run(s, evs);
            r.sent == s.sent && r.accepted == s.accepted && r.brk
    decreases |evs|
  {
    if evs != [] {
      SilentRun(Step(s, evs[0]), evs[1..]);
    }
  }

  /** Clearing it lets the interrupt send all that has waited. */
  lemma BreakEnds(s: Tx, n: nat)
    requires s.call.Idle? && n >= |s.ring|
    ensures var r := Run(s, [BreakSet(false), BreakMask] + Irqs(n));
            r.ring == [] && r.sent == s.sent + s.ring && !r.brk
  {
    var s1 := Step(s, BreakSet(false));
    var s2 := Step(s1, BreakMask);
    assert [BreakSet(false), BreakMask] + Irqs(n) == [BreakSet(false)] + ([BreakMask] + Irqs(n));
    RunAppend(s, [BreakSet(false)], [BreakMask] + Irqs(n));
    RunAppend(s1, [BreakMask], Irqs(n));
    assert Run(s, [BreakSet(false)]) == s1 && Run(s1, [BreakMask]) == s2;
    IrqsDrain(s2, n);
    assert s.ring[..|s.ring|] == s.ring;
  }

  // ---------------------------------------------------------------- flush

  /** A flush discards what waits, and interrupts send nothing of it. */
  lemma FlushDiscards(s: Tx, n: nat)
    requires s.call.Idle?
    ensures var r := Run(s, [TxFlush] + Irqs(n));
            r.ring == [] && r.sent == s.sent && r.accepted == s.accepted
  {
    var s1 := Step(s, TxFlush);
    RunAppend(s, [TxFlush], Irqs(n));
    assert Run(s, [TxFlush]) == s1;
    IrqsAcceptNothing(s1, n);
    NothingToSend(s1, n);
  }

  lemma {:induction false} NothingToSend(s: Tx, n: nat)
    requires s.ring == []
    ensures Run(s, Irqs(n)).ring == [] && Run(s, Irqs(n)).sent == s.sent
    decreases n
  {
    if n > 0 {
      assert Irqs(n)[1..] == Irqs(n - 1);
      NothingToSend(Step(s, TxIrq), n - 1);
    }
  }
}
