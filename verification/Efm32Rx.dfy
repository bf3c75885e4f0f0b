/** The receive half of the EFM32 serial driver as a step machine: the receive interrupt, the
    reading calls in their steps, and a peer that honours RTS with a bounded delay. */
module Efm32Rx {
  import opened CircularBuffer

  const RX_BUFF_SIZE: nat := 255
  const BUFFER_UPPER_BOUND: nat := 4
  const BUFFER_LOWER_BOUND: nat := RX_BUFF_SIZE / 3

  /** Bytes the peer may still send after RTS is deasserted. */
  const PEER_SLACK: nat := 4

  /** Driver state: the ring, RTS (true: asserted), flow_control_enabled, and whether a reading
      call still has its check of the lower bound to do. slack counts the bytes received since
      RTS was deasserted. received, delivered and refused are histories. */
  datatype Rx = Rx(ring: Ring, rts: bool, fc: bool, checking: bool, slack: nat,
                   received: seq<Byte>, delivered: seq<Byte>, refused: nat)
  {
    predicate Valid() { ring.Valid() && ring.mask == RX_BUFF_SIZE }
    function Used(): nat requires Valid() { |ring.Contents()| }
    function Free(): nat requires Valid() { RX_BUFF_SIZE - Used() }
  }

  datatype Event =
    | RxIrq(b: Byte)      // USART interrupt with a byte
    | ReadTake(n: nat)    // xbee_ser_read: its xbee_cbuf_get, or the second copy of one that wraps
    | ReadWrap            // the first copy of an xbee_cbuf_get that wraps
    | GetcharTake         // xbee_ser_getchar: its xbee_cbuf_getch
    | Check               // the rest of either call
    | FlowOn              // xbee_ser_flowcontrol( TRUE)
    | RxFlush
    | FlowOff(asserted: bool)   // xbee_ser_flowcontrol( FALSE) or xbee_ser_set_rts()

  function Opened(ring: Ring): Rx
  {
    Rx(ring, true, true, false, 0, [], [], 0)
  }

  function AssertRts(s: Rx): Rx { s.(rts := true, slack := 0) }

  function CheckUpper(s: Rx): Rx
    requires s.Valid()
  {
    if s.Free() <= BUFFER_UPPER_BOUND then s.(rts := false) else s
  }

  function CheckLower(s: Rx): Rx
    requires s.Valid()
  {
    if s.Used() <= BUFFER_LOWER_BOUND then AssertRts(s) else s
  }

  /** Flow control stays on. The peer sends only while RTS is asserted or within its slack; each
      call's steps come in order; getch is used only on indices it handles. */
  predicate Possible(s: Rx, ev: Event)
    requires s.Valid()
  {
    InOrder(s, ev) && (ev == GetcharTake ==> !StrayGetch(s.ring))
  }

  predicate InOrder(s: Rx, ev: Event)
  {
    match ev
    case RxIrq(_) => s.rts || s.slack < PEER_SLACK
    case ReadTake(_) => true
    case ReadWrap => true
    case GetcharTake => !s.checking
    case Check => s.checking
    case FlowOn => !s.checking
    case RxFlush => !s.checking
    case FlowOff(_) => false
  }

  function Receive(s: Rx, b: Byte): Rx
    requires s.Valid()
  {
    var (ring', ok) := s.ring.Putch(b);
    s.(ring := ring', received := s.received + [b],
       refused := if ok then s.refused else s.refused + 1,
       slack := if s.rts then 0 else s.slack + 1)
  }

  function Step(s: Rx, ev: Event): (s': Rx)
    requires s.Valid()
  {
    match ev
    case RxIrq(b) =>
      PutchSpec(s.ring, b);
      CheckUpper(Receive(s, b))
    case ReadTake(n) =>
      var (ring', out) := s.ring.Get(n);
      s.(ring := ring', delivered := s.delivered + out, checking := true)
    case ReadWrap =>
      var (ring', out) := s.ring.TakeToEnd();
      s.(ring := ring', delivered := s.delivered + out, checking := true)
    case GetcharTake =>
      var (ring', b) := s.ring.Getch();
      if b == None then s.(ring := ring')
      else s.(ring := ring', delivered := s.delivered + [b.value], checking := true)
    case Check =>
      (if s.fc then CheckLower(s) else s).(checking := false)
    case FlowOn =>
      CheckUpper(CheckLower(s.(fc := true)))
    case RxFlush =>
      s.(ring := s.ring.Flush())
    case FlowOff(asserted) =>
      s.(fc := false, rts := asserted, slack := 0)
  }

  lemma StepValid(s: Rx, ev: Event)
    requires s.Valid()
    ensures Step(s, ev).Valid()
  {
    match ev
    case RxIrq(b) => PutchSpec(s.ring, b);
    case ReadTake(n) => GetSpec(s.ring, n);
    case ReadWrap => TakeToEndSpec(s.ring);
    case GetcharTake => GetchSpec(s.ring);
    case RxFlush => FlushSpec(s.ring);
    case _ =>
  }

  /** Every event of the run is possible when it happens. */
  predicate AllPossible(s: Rx, evs: seq<Event>)
    requires s.Valid()
    decreases |evs|
  {
    evs == [] ||
    (Possible(s, evs[0]) && (StepValid(s, evs[0]); AllPossible(Step(s, evs[0]), evs[1..])))
  }

  predicate AllInOrder(s: Rx, evs: seq<Event>)
    requires s.Valid()
    decreases |evs|
  {
    evs == [] ||
    (InOrder(s, evs[0]) && (StepValid(s, evs[0]); AllInOrder(Step(s, evs[0]), evs[1..])))
  }

  /** A client that reads with getchar only never finds the stray state. */
  lemma {:induction false} GetcharOnlyIsPossible(s: Rx, evs: seq<Event>)
    requires s.Valid() && s.ring.head <= s.ring.mask && AllInOrder(s, evs)
    requires forall i :: 0 <= i < |evs| ==> !evs[i].ReadTake? && !evs[i].ReadWrap?
    ensures AllPossible(s, evs)
    decreases |evs|
  {
    if evs != [] {
      HeadStaysInRange(s, evs[0]);
      GetcharOnlyIsPossible(Step(s, evs[0]), evs[1..]);
    }
  }

  lemma HeadStaysInRange(s: Rx, ev: Event)
    requires s.Valid() && s.ring.head <= s.ring.mask && !ev.ReadTake? && !ev.ReadWrap?
    ensures Step(s, ev).Valid() && Step(s, ev).ring.head <= s.ring.mask == Step(s, ev).ring.mask
  {
    StepValid(s, ev);
    match ev
    case RxIrq(b) => PutchSpec(s.ring, b);
    case GetcharTake => GetchSpec(s.ring);
    case RxFlush => FlushSpec(s.ring);
    case _ =>
  }

  /** A client that never uses getchar cannot find it either. */
  lemma {:induction false} ReadOnlyIsPossible(s: Rx, evs: seq<Event>)
    requires s.Valid() && AllInOrder(s, evs)
    requires forall i :: 0 <= i < |evs| ==> evs[i] != GetcharTake
    ensures AllPossible(s, evs)
    decreases |evs|
  {
    if evs != [] {
      StepValid(s, evs[0]);
      ReadOnlyIsPossible(Step(s, evs[0]), evs[1..]);
    }
  }

  function Run(s: Rx, evs: seq<Event>): (s': Rx)
    requires s.Valid()
    ensures s'.Valid()
    decreases |evs|
  {
    if evs == [] then s
    else
      StepValid(s, evs[0]);
      Run(Step(s, evs[0]), evs[1..])
  }

  /** While RTS is asserted more than four bytes are free; after it drops, the free bytes and the
      bytes the peer has already sent make at least four. */
  predicate RoomInvariant(s: Rx)
    requires s.Valid()
  {
    && s.fc && s.refused == 0
    && (s.rts ==> s.Free() > BUFFER_UPPER_BOUND && s.slack == 0)
    && (!s.rts ==> s.Free() + s.slack >= PEER_SLACK)
  }

  lemma RoomIrq(s: Rx, b: Byte)
    requires s.Valid() && RoomInvariant(s) && Possible(s, RxIrq(b))
    ensures Step(s, RxIrq(b)).Valid() && RoomInvariant(Step(s, RxIrq(b)))
  {
    PutchSpec(s.ring, b);
  }

  /** Bytes that leave the ring only make room. */
  lemma RoomTake(s: Rx, r: Rx)
    requires s.Valid() && RoomInvariant(s) && r.Valid() && r.Used() <= s.Used()
    requires r.fc == s.fc && r.rts == s.rts && r.slack == s.slack && r.refused == s.refused
    ensures RoomInvariant(r)
  {
  }

  lemma RoomStep(s: Rx, ev: Event)
    requires s.Valid() && RoomInvariant(s) && Possible(s, ev)
    ensures Step(s, ev).Valid() && RoomInvariant(Step(s, ev))
  {
    StepValid(s, ev);
    match ev
    case RxIrq(b) => RoomIrq(s, b);
    case ReadTake(n) =>
      GetSpec(s.ring, n);
      RoomTake(s, Step(s, ev));
    case ReadWrap =>
      TakeToEndSpec(s.ring);
      RoomTake(s, Step(s, ev));
    case GetcharTake =>
      GetchSpec(s.ring);
      RoomTake(s, Step(s, ev));
    case RxFlush =>
      FlushSpec(s.ring);
      RoomTake(s, Step(s, ev));
    case _ =>
  }

  /** No received byte is ever refused, over every run, with rx_flush or without. */
  lemma {:induction false} NothingRefused(s: Rx, evs: seq<Event>)
    requires s.Valid() && RoomInvariant(s) && AllPossible(s, evs)
    ensures Run(s, evs).refused == 0
    ensures RoomInvariant(Run(s, evs))
    decreases |evs|
  {
    if evs != [] {
      RoomStep(s, evs[0]);
      NothingRefused(Step(s, evs[0]), evs[1..]);
    }
  }

  /** Delivered bytes followed by buffered bytes are the received bytes. */
  predicate Lossless(s: Rx)
    requires s.Valid()
  {
    s.delivered + s.ring.Contents() == s.received
  }

  lemma LosslessIrq(s: Rx, b: Byte)
    requires s.Valid() && RoomInvariant(s) && Lossless(s) && Possible(s, RxIrq(b))
    ensures Step(s, RxIrq(b)).Valid() && Lossless(Step(s, RxIrq(b)))
  {
    PutchSpec(s.ring, b);
    assert s.delivered + (s.ring.Contents() + [b]) == s.received + [b];
  }

  lemma LosslessRead(s: Rx, n: nat)
    requires s.Valid() && Lossless(s)
    ensures Step(s, ReadTake(n)).Valid() && Lossless(Step(s, ReadTake(n)))
  {
    GetSpec(s.ring, n);
    var c := s.ring.Contents();
    var m := Min(n, |c|);
    assert (s.delivered + c[..m]) + c[m..] == s.delivered + c;
  }

  lemma LosslessWrap(s: Rx)
    requires s.Valid() && Lossless(s)
    ensures Step(s, ReadWrap).Valid() && Lossless(Step(s, ReadWrap))
  {
    TakeToEndSpec(s.ring);
    var c, m := s.ring.Contents(), |s.ring.TakeToEnd().1|;
    assert (s.delivered + c[..m]) + c[m..] == s.delivered + c;
  }

  /** A getchar keeps the stream exactly when the ring is not in the stray state. */
  lemma LosslessGetchar(s: Rx)
    requires s.Valid() && Lossless(s)
    ensures Step(s, GetcharTake).Valid()
    ensures Lossless(Step(s, GetcharTake)) <==> !StrayGetch(s.ring)
  {
    GetchSpec(s.ring);
    var c, d := s.ring.Contents(), s.delivered;
    var s' := Step(s, GetcharTake);
    if c != [] {
      FirstMoved(d, c, s.ring.Getch().1.value);
    } else if StrayGetch(s.ring) {
      assert |s'.delivered + s'.ring.Contents()| > |s.received|;
    }
  }

  lemma FirstMoved(d: seq<Byte>, c: seq<Byte>, b: Byte)
    requires c != []
    ensures (d + [b]) + c[1..] == d + c <==> b == c[0]
  {
    assert ((d + [b]) + c[1..])[|d|] == b && (d + c)[|d|] == c[0];
    if b == c[0] {
      assert (d + [b]) + c[1..] == d + c;
    }
  }

  /** How that state comes about: a read that empties the ring down to the end of its memory.
      The getchar after it delivers a byte that was never received. */
  lemma DrainThenGetchar(s: Rx, n: nat)
    requires s.Valid() && Lossless(s)
    requires s.ring.tail == 0 < s.ring.head <= s.ring.mask && n >= s.Used()
    ensures var s' := Run(s, [ReadTake(n), Check, GetcharTake]);
            |s'.delivered| == |s.received| + 1 && s'.received == s.received && !Lossless(s')
  {
    var evs := [ReadTake(n), Check, GetcharTake];
    LosslessRead(s, n);
    GetSpec(s.ring, n);
    var s1 := Step(s, ReadTake(n));
    var s2 := Step(s1, Check);
    StepValid(s1, Check);
    assert s.Used() == s.ring.Size() - s.ring.head;
    assert s2.ring == s1.ring && s2.ring.Contents() == [] && StrayGetch(s2.ring);
    assert s2.delivered + [] == s2.received;
    GetchSpec(s2.ring);
    LosslessGetchar(s2);
    assert evs[1..] == [Check, GetcharTake] && evs[1..][1..] == [GetcharTake] && evs[1..][1..][1..] == [];
    assert Run(s, evs) == Run(s2, [GetcharTake]) == Step(s2, GetcharTake);
  }

  lemma LosslessStep(s: Rx, ev: Event)
    requires s.Valid() && RoomInvariant(s) && Lossless(s) && Possible(s, ev) && ev != RxFlush
    ensures Step(s, ev).Valid() && Lossless(Step(s, ev))
  {
    match ev
    case RxIrq(b) => LosslessIrq(s, b);
    case ReadTake(n) => LosslessRead(s, n);
    case ReadWrap => LosslessWrap(s);
    case GetcharTake => LosslessGetchar(s);
    case _ =>
  }

  /** The bytes that arrive in a run, read off its events alone. */
  function Arrivals(evs: seq<Event>): seq<Byte>
    decreases |evs|
  {
    if evs == [] then []
    else (if evs[0].RxIrq? then [evs[0].b] else []) + Arrivals(evs[1..])
  }

  /** Over every run without rx_flush the client gets exactly the stream that has arrived. */
  lemma {:induction false} StreamDelivered(s: Rx, evs: seq<Event>)
    requires s.Valid() && RoomInvariant(s) && Lossless(s) && AllPossible(s, evs)
    requires forall i :: 0 <= i < |evs| ==> evs[i] != RxFlush
    ensures Lossless(Run(s, evs)) && Run(s, evs).refused == 0
    ensures Run(s, evs).delivered + Run(s, evs).ring.Contents() == s.received + Arrivals(evs)
    decreases |evs|
  {
    if evs == [] {
      assert s.received + Arrivals(evs) == s.received;
    } else {
      var s' := Step(s, evs[0]);
      RoomStep(s, evs[0]);
      LosslessStep(s, evs[0]);
      StreamDelivered(s', evs[1..]);
      ReceivedNext(s, evs[0]);
      ArrivalNext(s.received, s'.received, evs);
    }
  }

  lemma ArrivalNext(received: seq<Byte>, received': seq<Byte>, evs: seq<Event>)
    requires evs != []
    requires received' == if evs[0].RxIrq? then received + [evs[0].b] else received
    ensures received' + Arrivals(evs[1..]) == received + Arrivals(evs)
  {
    if evs[0].RxIrq? {
      assert (received + [evs[0].b]) + Arrivals(evs[1..]) == received + ([evs[0].b] + Arrivals(evs[1..]));
    } else {
      assert Arrivals(evs) == Arrivals(evs[1..]);
    }
  }

  lemma ReceivedNext(s: Rx, ev: Event)
    requires s.Valid()
    ensures Step(s, ev).received == if ev.RxIrq? then s.received + [ev.b] else s.received
  {
  }

  /** What a whole read does: the oldest bytes are delivered, and RTS is asserted if few remain. */
  lemma ReadSpec(s: Rx, n: nat)
    requires s.Valid()
    ensures var s1, k := Step(s, ReadTake(n)), Min(n, s.Used());
            && s1.Valid()
            && s1.delivered == s.delivered + s.ring.Contents()[..k]
            && s1.ring.Contents() == s.ring.Contents()[k..]
            && Step(s1, Check).ring == s1.ring && Step(s1, Check).delivered == s1.delivered
            && Step(s1, Check).rts == (s.rts || (s.fc && s.Used() - k <= BUFFER_LOWER_BOUND))
  {
    GetSpec(s.ring, n);
  }

  /** What a whole getchar does. */
  lemma GetcharSpec(s: Rx)
    requires s.Valid()
    ensures var s1 := Step(s, GetcharTake);
            && s1.Valid()
            && Step(s1, Check).ring == s1.ring
            && Step(s1, Check).rts == (s.rts || (s.fc && s1.Used() <= BUFFER_LOWER_BOUND))
            && (!StrayGetch(s.ring) ==>
                  if s.Used() == 0 then s1.ring.Contents() == [] && s1.delivered == s.delivered
                  else s1.ring.Contents() == s.ring.Contents()[1..]
                       && s1.delivered == s.delivered + [s.ring.Contents()[0]])
  {
    GetchSpec(s.ring);
  }

  /** What the interrupt does with a byte. */
  lemma RxIrqSpec(s: Rx, b: Byte)
    requires s.Valid()
    ensures var s1 := Step(s, RxIrq(b));
            && s1.Valid()
            && (s.Free() > 0 ==> s1.ring.Contents() == s.ring.Contents() + [b])
            && (s.Free() == 0 && !Overrun(s.ring) ==> s1.ring.Contents() == s.ring.Contents())
            && s1.rts == (s.rts && s1.Free() > BUFFER_UPPER_BOUND)
  {
    PutchSpec(s.ring, b);
  }

  /** A read that asks for all that is buffered then completes the delivery of every byte that has
      arrived. */
  lemma EverythingIsDelivered(s: Rx, evs: seq<Event>, n: nat)
    requires s.Valid() && RoomInvariant(s) && Lossless(s) && AllPossible(s, evs) && n >= RX_BUFF_SIZE
    requires forall i :: 0 <= i < |evs| ==> evs[i] != RxFlush
    ensures var r := Step(Run(s, evs), ReadTake(n));
            r.Valid() && r.delivered == s.received + Arrivals(evs) && r.ring.Contents() == []
  {
    StreamDelivered(s, evs);
    var r := Run(s, evs);
    GetSpec(r.ring, n);
    var c := r.ring.Contents();
    assert c[..|c|] == c && c[|c|..] == [];
  }

  lemma OpenedIsGood(ring: Ring)
    requires ring.Valid() && ring.mask == RX_BUFF_SIZE && ring.head == ring.tail
    ensures Opened(ring).Valid() && RoomInvariant(Opened(ring)) && Lossless(Opened(ring))
    ensures NotStuck(Opened(ring))
  {
  }

  function Received(bs: seq<Byte>): seq<Event> { seq(|bs|, i requires 0 <= i < |bs| => RxIrq(bs[i])) }

  lemma {:induction false} UsesSlack(s: Rx, bs: seq<Byte>)
    requires s.Valid() && !s.rts && s.ring.head <= s.ring.mask
    requires s.slack + |bs| <= PEER_SLACK && |bs| <= s.Free()
    ensures AllPossible(s, Received(bs))
    ensures var r := Run(s, Received(bs));
            && !r.rts && r.ring.head <= r.ring.mask
            && r.slack == s.slack + |bs| && r.Free() == s.Free() - |bs| && r.refused == s.refused
    decreases |bs|
  {
    if bs != [] {
      SlackStep(s, bs[0]);
      assert Received(bs)[0] == RxIrq(bs[0]) && Received(bs)[1..] == Received(bs[1..]);
      UsesSlack(Step(s, RxIrq(bs[0])), bs[1..]);
    }
  }

  lemma SlackStep(s: Rx, b: Byte)
    requires s.Valid() && !s.rts && s.ring.head <= s.ring.mask
    requires s.slack < PEER_SLACK && 0 < s.Free()
    ensures Possible(s, RxIrq(b))
    ensures var r := Step(s, RxIrq(b));
            && r.Valid() && !r.rts && r.ring.head <= r.ring.mask
            && r.slack == s.slack + 1 && r.Free() == s.Free() - 1 && r.refused == s.refused
  {
    PutchSpec(s.ring, b);
  }

  /** The bound is tight. From five free bytes the byte that drops RTS and the four of the peer's
      slack fill the ring, and one byte more would be refused. */
  lemma SlackIsTight(s: Rx, bs: seq<Byte>, b: Byte)
    requires s.Valid() && RoomInvariant(s) && s.ring.head <= s.ring.mask
    requires s.rts && s.Free() == BUFFER_UPPER_BOUND + 1 && |bs| == PEER_SLACK + 1
    ensures AllPossible(s, Received(bs))
    ensures var r := Run(s, Received(bs));
            && r.Free() == 0 && r.refused == 0
            && !Possible(r, RxIrq(b)) && Step(r, RxIrq(b)).refused == 1
  {
    PutchSpec(s.ring, bs[0]);
    assert Received(bs)[1..] == Received(bs[1..]);
    UsesSlack(Step(s, RxIrq(bs[0])), bs[1..]);
    PutchSpec(Run(s, Received(bs)).ring, b);
  }

  // ---------------------------------------------------------------- RTS comes back

  /** Between calls, RTS is low only while more than the lower bound is buffered, so that reading
      can bring it back. */
  predicate NotStuck(s: Rx)
    requires s.Valid()
  {
    !s.checking && !s.rts ==> s.Used() > BUFFER_LOWER_BOUND
  }

  lemma NotStuckStep(s: Rx, ev: Event)
    requires s.Valid() && RoomInvariant(s) && NotStuck(s) && Possible(s, ev) && ev != RxFlush
    ensures Step(s, ev).Valid() && NotStuck(Step(s, ev))
  {
    StepValid(s, ev);
    match ev
    case RxIrq(b) => PutchSpec(s.ring, b);
    case ReadTake(n) => GetSpec(s.ring, n);
    case ReadWrap => TakeToEndSpec(s.ring);
    case GetcharTake => GetchSpec(s.ring);
    case _ =>
  }

  lemma {:induction false} NeverStuckWithoutFlush(s: Rx, evs: seq<Event>)
    requires s.Valid() && RoomInvariant(s) && NotStuck(s) && AllPossible(s, evs)
    requires forall i :: 0 <= i < |evs| ==> evs[i] != RxFlush
    ensures NotStuck(Run(s, evs))
    decreases |evs|
  {
    if evs != [] {
      RoomStep(s, evs[0]);
      NotStuckStep(s, evs[0]);
      NeverStuckWithoutFlush(Step(s, evs[0]), evs[1..]);
    }
  }

  /** One read asserts RTS again exactly when it leaves no more than the lower bound. */
  lemma ReadAssertsRts(s: Rx, n: nat)
    requires s.Valid() && s.fc && !s.rts
    ensures var s1 := Step(s, ReadTake(n));
            s1.Valid() && (Step(s1, Check).rts <==> s.Used() <= BUFFER_LOWER_BOUND + Min(n, s.Used()))
  {
    GetSpec(s.ring, n);
  }

  function Getchars(n: nat): seq<Event> { seq(n, i => GetcharTake) }

  /** rx_flush does not assert RTS, and getchar returns before its check when the ring is empty:
      a client that flushes while RTS is low and then polls with getchar never gets it back. */
  lemma {:induction false} FlushStarvesGetchar(s: Rx, n: nat)
    requires s.Valid() && !s.rts && !s.checking && s.ring.head == s.ring.tail
    ensures Run(s, Getchars(n)) == s
    decreases n
  {
    if n > 0 {
      assert Getchars(n)[1..] == Getchars(n - 1);
      FlushStarvesGetchar(s, n - 1);
    }
  }

  /** A read of any size does. */
  lemma ReadAfterFlushRecovers(s: Rx, n: nat)
    requires s.Valid() && s.fc
    ensures var s1 := Step(Step(s, RxFlush).(checking := false), ReadTake(n));
            Step(s, RxFlush).Valid() && s1.Valid() && Step(s1, Check).rts
  {
    FlushSpec(s.ring);
    GetSpec(s.ring.Flush(), n);
  }
}
