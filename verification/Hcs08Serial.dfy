/** The HCS08 serial driver: two receive rings, two RTS pins, and one byte that packs the
    flow-control and RTS bits of both ports. */
module Hcs08Serial {
  import opened CircularBuffer
  import opened Platform

  const RTS_ASSERT_BYTES: nat := 8

  datatype Port = Host | Ember

  function Other(p: Port): Port { if p.Host? then Ember else Host }

  // ---------------------------------------------------------------- one port by itself

  /** The reading call in progress: its bytes are taken, its check is still to come. */
  datatype Pending = Nothing | AfterRead(retval: nat) | AfterGetch

  datatype PortState = PortState(flow: bool, rts: bool, pin: bool, ring: Ring, pending: Pending)
  {
    function Free(): int requires ring.Valid() { ring.mask - |ring.Contents()| }
  }

  datatype Event =
    | Isr(b: Byte)              // vSci1Rx or vSci2Rx
    | ReadTake(n: nat)          // xbee_ser_read: its xbee_cbuf_get, or the second copy of one that wraps
    | ReadWrap                  // the first copy of an xbee_cbuf_get that wraps
    | GetcharTake               // xbee_ser_getchar: its xbee_cbuf_getch
    | Check                     // the rest of either call
    | Flow(enabled: bool)       // xbee_ser_flowcontrol
    | ManualRts(asserted: bool) // xbee_ser_set_rts
    | RxFlush

  function Assert(s: PortState, asserted: bool): PortState { s.(rts := asserted, pin := !asserted) }

  /** What the interrupt does about RTS after it has stored the byte. */
  function DropIfTight(s: PortState): PortState
    requires s.ring.Valid()
  {
    if s.flow && s.rts && s.Free() < RTS_ASSERT_BYTES then Assert(s, false) else s
  }

  /** Enough room to assert RTS: eight bytes free, or eight bytes just read. */
  predicate Enough(r: Ring, c: Pending)
    requires r.Valid()
  {
    (c.AfterRead? && c.retval >= RTS_ASSERT_BYTES) || r.mask - |r.Contents()| >= RTS_ASSERT_BYTES
  }

  /** What the end of a reading call does about RTS. */
  function Reassert(s: PortState): PortState
    requires s.ring.Valid()
  {
    if s.flow && !s.rts && Enough(s.ring, s.pending) then Assert(s, true) else s
  }

  /** A read that has taken n more bytes. */
  function Reading(c: Pending, n: nat): Pending { AfterRead((if c.AfterRead? then c.retval else 0) + n) }

  function PortStep(s: PortState, ev: Event): PortState
    requires s.ring.Valid()
  {
    match ev
    case Isr(b) =>
      var s1 := s.(ring := s.ring.Putch(b).0);
      PutchSpec(s.ring, b);
      DropIfTight(s1)
    case ReadTake(n) =>
      var (ring', out) := s.ring.Get(n);
      s.(ring := ring', pending := Reading(s.pending, |out|))
    case ReadWrap =>
      var (ring', out) := s.ring.TakeToEnd();
      s.(ring := ring', pending := Reading(s.pending, |out|))
    case GetcharTake =>
      var (ring', b) := s.ring.Getch();
      s.(ring := ring', pending := if b == None then s.pending else AfterGetch)
    case Check =>
      Reassert(s).(pending := Nothing)
    case Flow(enabled) =>
      Assert(s.(flow := enabled), !enabled || s.Free() >= RTS_ASSERT_BYTES)
    case ManualRts(asserted) => Assert(s, asserted)
    case RxFlush => s.(ring := s.ring.Flush())
  }

  lemma PortStepValid(s: PortState, ev: Event)
    requires s.ring.Valid()
    ensures PortStep(s, ev).ring.Valid()
  {
    match ev
    case Isr(b) => PutchSpec(s.ring, b);
    case ReadTake(n) => GetSpec(s.ring, n);
    case ReadWrap => TakeToEndSpec(s.ring);
    case GetcharTake => GetchSpec(s.ring);
    case RxFlush => FlushSpec(s.ring);
    case _ =>
  }

  /** RTS is asserted exactly when at least eight bytes are free; inside a reading call it may
      still be low with eight free, until the call's check. */
  predicate RtsExact(s: PortState)
    requires s.ring.Valid()
  {
    && s.flow && s.pin == !s.rts
    && (s.rts ==> s.Free() >= RTS_ASSERT_BYTES)
    && (s.pending == Nothing ==> (s.rts <==> s.Free() >= RTS_ASSERT_BYTES))
  }

  /** The check of a read that took eight bytes or more asserts RTS without looking at the ring;
      this is wrong when bytes received meanwhile have left fewer than eight free. */
  predicate ReadRace(s: PortState, ev: Event)
    requires s.ring.Valid()
  {
    ev == Check && !s.rts && s.pending.AfterRead? && s.pending.retval >= RTS_ASSERT_BYTES && s.Free() < RTS_ASSERT_BYTES
  }

  /** A byte that arrives while the ring is full and its head is one past the end: the ring then
      looks empty, and RTS stays low. */
  predicate OverrunRace(s: PortState, ev: Event)
  {
    ev.Isr? && Overrun(s.ring) && s.pending == Nothing && s.ring.mask >= RTS_ASSERT_BYTES
  }

  /** A getchar on a ring emptied down to the end of its memory: the ring then looks full, while
      RTS is asserted. */
  predicate StrayRace(s: PortState, ev: Event)
    requires s.ring.Valid()
  {
    ev == GetcharTake && s.ring.head == s.ring.mask + 1 && s.ring.Contents() == [] && s.ring.mask >= RTS_ASSERT_BYTES
  }

  predicate Race(s: PortState, ev: Event)
    requires s.ring.Valid()
  {
    ReadRace(s, ev) || OverrunRace(s, ev) || StrayRace(s, ev)
  }

  /** Flow control stays on, nothing flushes, RTS is not driven by hand, calls do not nest. */
  predicate Allowed(s: PortState, ev: Event)
  {
    match ev
    case Isr(_) => true
    case ReadTake(_) => !s.pending.AfterGetch?
    case ReadWrap => !s.pending.AfterGetch?
    case GetcharTake => s.pending == Nothing
    case Check => s.pending != Nothing
    case Flow(enabled) => enabled && s.pending == Nothing
    case ManualRts(_) => false
    case RxFlush => false
  }

  lemma IsrStep(s: PortState, b: Byte)
    requires s.ring.Valid() && RtsExact(s)
    ensures PortStep(s, Isr(b)).ring.Valid()
    ensures RtsExact(PortStep(s, Isr(b))) <==> !OverrunRace(s, Isr(b))
  {
    PutchSpec(s.ring, b);
  }

  /** One step keeps RTS exact unless it is one of the three races, and each of them breaks it. */
  lemma RtsStep(s: PortState, ev: Event)
    requires s.ring.Valid() && RtsExact(s) && Allowed(s, ev)
    ensures PortStep(s, ev).ring.Valid()
    ensures RtsExact(PortStep(s, ev)) <==> !Race(s, ev)
  {
    match ev
    case Isr(b) => IsrStep(s, b);
    case ReadTake(n) => ReadTakeStep(s, n);
    case ReadWrap => ReadWrapStep(s);
    case GetcharTake => GetcharTakeStep(s);
    case Check => CheckStep(s);
    case Flow(_) =>
  }

  lemma ReadTakeStep(s: PortState, n: nat)
    requires s.ring.Valid() && RtsExact(s)
    ensures PortStep(s, ReadTake(n)).ring.Valid() && RtsExact(PortStep(s, ReadTake(n)))
  {
    GetSpec(s.ring, n);
    TakeStep(s, s.ring.Get(n).0, |s.ring.Get(n).1|);
  }

  lemma ReadWrapStep(s: PortState)
    requires s.ring.Valid() && RtsExact(s)
    ensures PortStep(s, ReadWrap).ring.Valid() && RtsExact(PortStep(s, ReadWrap))
  {
    TakeToEndSpec(s.ring);
    TakeStep(s, s.ring.TakeToEnd().0, |s.ring.TakeToEnd().1|);
  }

  lemma GetcharTakeStep(s: PortState)
    requires s.ring.Valid() && RtsExact(s) && s.pending == Nothing
    ensures PortStep(s, GetcharTake).ring.Valid()
    ensures RtsExact(PortStep(s, GetcharTake)) <==> !StrayRace(s, GetcharTake)
  {
    GetchSpec(s.ring);
  }

  lemma CheckStep(s: PortState)
    requires s.ring.Valid() && RtsExact(s) && s.pending != Nothing
    ensures RtsExact(PortStep(s, Check)) <==> !ReadRace(s, Check)
  {
  }

  /** Taking bytes out only makes room. */
  lemma TakeStep(s: PortState, ring: Ring, n: nat)
    requires s.ring.Valid() && RtsExact(s) && ring.Valid() && ring.mask == s.ring.mask
    requires |ring.Contents()| <= |s.ring.Contents()|
    ensures RtsExact(s.(ring := ring, pending := Reading(s.pending, n)))
  {
  }

  /** A read that no interrupt enters between its take and its check has no race, whatever RTS was. */
  lemma UninterruptedReadHasNoRace(s: PortState, n: nat)
    requires s.ring.Valid() && s.pending == Nothing
    ensures PortStep(s, ReadTake(n)).ring.Valid()
    ensures !Race(s, ReadTake(n)) && !Race(PortStep(s, ReadTake(n)), Check)
  {
    GetSpec(s.ring, n);
  }

  /** Whatever the race did, after the next interrupt RTS is asserted only with eight bytes free. */
  lemma InterruptRepairs(s: PortState, b: Byte)
    requires s.ring.Valid() && s.flow
    ensures PortStep(s, Isr(b)).ring.Valid()
    ensures PortStep(s, Isr(b)).rts ==> PortStep(s, Isr(b)).Free() >= RTS_ASSERT_BYTES
  {
    PutchSpec(s.ring, b);
  }

  function PortRun(s: PortState, evs: seq<Event>): (s': PortState)
    requires s.ring.Valid()
    ensures s'.ring.Valid()
    decreases |evs|
  {
    if evs == [] then s
    else
      PortStepValid(s, evs[0]);
      PortRun(PortStep(s, evs[0]), evs[1..])
  }

  predicate AllAllowed(s: PortState, evs: seq<Event>)
    requires s.ring.Valid()
    decreases |evs|
  {
    evs == [] ||
    (Allowed(s, evs[0]) && !Race(s, evs[0]) &&
     (PortStepValid(s, evs[0]); AllAllowed(PortStep(s, evs[0]), evs[1..])))
  }

  lemma {:induction false} RtsRun(s: PortState, evs: seq<Event>)
    requires s.ring.Valid() && RtsExact(s) && AllAllowed(s, evs)
    ensures RtsExact(PortRun(s, evs))
    decreases |evs|
  {
    if evs != [] {
      RtsStep(s, evs[0]);
      RtsRun(PortStep(s, evs[0]), evs[1..]);
    }
  }

  // ---------------------------------------------------------------- who can race, and how

  /** The events come in an order that calls and interrupts can take. */
  predicate AllInOrder(s: PortState, evs: seq<Event>)
    requires s.ring.Valid()
    decreases |evs|
  {
    evs == [] ||
    (Allowed(s, evs[0]) && (PortStepValid(s, evs[0]); AllInOrder(PortStep(s, evs[0]), evs[1..])))
  }

  /** A client that reads with getchar only never races. */
  lemma {:induction false} GetcharOnlyNeverRaces(s: PortState, evs: seq<Event>)
    requires s.ring.Valid() && s.ring.head <= s.ring.mask && !s.pending.AfterRead? && AllInOrder(s, evs)
    requires forall i :: 0 <= i < |evs| ==> !evs[i].ReadTake? && !evs[i].ReadWrap?
    ensures AllAllowed(s, evs)
    decreases |evs|
  {
    if evs != [] {
      GetcharClientStep(s, evs[0]);
      GetcharOnlyNeverRaces(PortStep(s, evs[0]), evs[1..]);
    }
  }

  lemma GetcharClientStep(s: PortState, ev: Event)
    requires s.ring.Valid() && s.ring.head <= s.ring.mask && !s.pending.AfterRead? && Allowed(s, ev)
    requires !ev.ReadTake? && !ev.ReadWrap?
    ensures !Race(s, ev)
    ensures var s' := PortStep(s, ev);
            s'.ring.Valid() && s'.ring.head <= s'.ring.mask && !s'.pending.AfterRead?
  {
    match ev
    case Isr(b) => IsrKeepsHead(s, b);
    case GetcharTake => GetchSpec(s.ring);
    case _ =>
  }

  lemma IsrKeepsHead(s: PortState, b: Byte)
    requires s.ring.Valid()
    ensures var r := PortStep(s, Isr(b));
            r.ring.Valid() && r.ring.head == s.ring.head && r.ring.mask == s.ring.mask && r.pending == s.pending
  {
    PutchSpec(s.ring, b);
  }

  function Isrs(bs: seq<Byte>): seq<Event> { seq(|bs|, i requires 0 <= i < |bs| => Isr(bs[i])) }

  lemma FirstEvent(s: PortState, ev: Event, evs: seq<Event>)
    requires s.ring.Valid()
    ensures PortStep(s, ev).ring.Valid()
    ensures PortRun(s, [ev] + evs) == PortRun(PortStep(s, ev), evs)
    ensures AllAllowed(s, [ev] + evs) <==> Allowed(s, ev) && !Race(s, ev) && AllAllowed(PortStep(s, ev), evs)
  {
    PortStepValid(s, ev);
    assert ([ev] + evs)[1..] == evs;
  }

  /** Interrupts that find room. */
  lemma {:induction false} IsrsFill(s: PortState, bs: seq<Byte>)
    requires s.ring.Valid() && |bs| <= s.Free()
    ensures AllAllowed(s, Isrs(bs))
    ensures var r := PortRun(s, Isrs(bs));
            && r.ring.mask == s.ring.mask && r.ring.head == s.ring.head && r.Free() == s.Free() - |bs|
            && r.pending == s.pending && r.flow == s.flow && (!s.rts ==> !r.rts)
    decreases |bs|
  {
    if bs != [] {
      IsrFills(s, bs[0]);
      FirstEvent(s, Isr(bs[0]), Isrs(bs[1..]));
      assert Isrs(bs) == [Isr(bs[0])] + Isrs(bs[1..]);
      IsrsFill(PortStep(s, Isr(bs[0])), bs[1..]);
    }
  }

  lemma IsrFills(s: PortState, b: Byte)
    requires s.ring.Valid() && 0 < s.Free()
    ensures !Race(s, Isr(b))
    ensures var r := PortStep(s, Isr(b));
            && r.ring.Valid() && r.ring.mask == s.ring.mask && r.ring.head == s.ring.head && r.Free() == s.Free() - 1
            && r.pending == s.pending && r.flow == s.flow && (!s.rts ==> !r.rts)
  {
    PutchSpec(s.ring, b);
  }

  /** How a read races: RTS is low, the read takes eight bytes, and before its check more bytes
      arrive than were free, but no more than there is room for now. */
  lemma ReadRaceIsReached(s: PortState, bs: seq<Byte>)
    requires s.ring.Valid() && RtsExact(s) && s.pending == Nothing && !s.rts
    requires |s.ring.Contents()| >= RTS_ASSERT_BYTES && s.Free() < |bs| <= s.Free() + RTS_ASSERT_BYTES
    ensures var evs := [ReadTake(RTS_ASSERT_BYTES)] + Isrs(bs);
            AllAllowed(s, evs) && ReadRace(PortRun(s, evs), Check) && Allowed(PortRun(s, evs), Check)
  {
    GetSpec(s.ring, RTS_ASSERT_BYTES);
    FirstEvent(s, ReadTake(RTS_ASSERT_BYTES), Isrs(bs));
    IsrsFill(PortStep(s, ReadTake(RTS_ASSERT_BYTES)), bs);
  }

  /** A read that empties the ring down to the end of its memory. */
  lemma DrainToEnd(s: PortState, evs: seq<Event>)
    requires s.ring.Valid() && RtsExact(s) && s.pending == Nothing && s.ring.mask >= RTS_ASSERT_BYTES
    requires s.ring.tail == 0 < s.ring.head <= s.ring.mask
    ensures var drain := [ReadTake(|s.ring.Contents()|), Check];
            var r := PortRun(s, drain);
            && r.ring.head == r.ring.mask + 1 && r.ring.mask == s.ring.mask && r.ring.Contents() == []
            && r.pending == Nothing
            && PortRun(s, drain + evs) == PortRun(r, evs) && (AllAllowed(s, drain + evs) <==> AllAllowed(r, evs))
  {
    var n := |s.ring.Contents()|;
    var s1 := PortStep(s, ReadTake(n));
    GetSpec(s.ring, n);
    UninterruptedReadHasNoRace(s, n);
    assert [ReadTake(n), Check] == [ReadTake(n)] + ([Check] + []);
    assert [ReadTake(n), Check] + evs == [ReadTake(n)] + ([Check] + evs);
    FirstEvent(s, ReadTake(n), [Check] + []);
    FirstEvent(s1, Check, []);
    FirstEvent(s, ReadTake(n), [Check] + evs);
    FirstEvent(s1, Check, evs);
  }

  /** After it a getchar strays, and as many bytes as the ring holds make the next one overrun. */
  lemma StrayAndOverrunAreReached(s: PortState, bs: seq<Byte>, b: Byte)
    requires s.ring.Valid() && RtsExact(s) && s.pending == Nothing && s.ring.mask >= RTS_ASSERT_BYTES
    requires s.ring.tail == 0 < s.ring.head <= s.ring.mask && |bs| == s.ring.mask
    ensures var drain := [ReadTake(|s.ring.Contents()|), Check];
            && AllAllowed(s, drain) && StrayRace(PortRun(s, drain), GetcharTake)
            && AllAllowed(s, drain + Isrs(bs)) && OverrunRace(PortRun(s, drain + Isrs(bs)), Isr(b))
  {
    var drain := [ReadTake(|s.ring.Contents()|), Check];
    DrainToEnd(s, []);
    assert drain + [] == drain;
    DrainToEnd(s, Isrs(bs));
    IsrsFill(PortRun(s, drain), bs);
  }

  /** Turning flow control on between calls establishes the invariant from any state. */
  lemma FlowOnExact(s: PortState)
    requires s.ring.Valid() && s.pending == Nothing
    ensures RtsExact(PortStep(s, Flow(true)))
  {
  }

  // ---------------------------------------------------------------- the bytes themselves

  /** The bytes a step hands to the client. */
  function Output(s: PortState, ev: Event): seq<Byte>
    requires s.ring.Valid()
  {
    match ev
    case ReadTake(n) => s.ring.Get(n).1
    case ReadWrap => s.ring.TakeToEnd().1
    case GetcharTake => var b := s.ring.Getch().1; if b == None then [] else [b.value]
    case _ => []
  }

  function Delivered(s: PortState, evs: seq<Event>): seq<Byte>
    requires s.ring.Valid()
    decreases |evs|
  {
    if evs == [] then []
    else
      PortStepValid(s, evs[0]);
      Output(s, evs[0]) + Delivered(PortStep(s, evs[0]), evs[1..])
  }

  /** The bytes that arrive in a run, read off its events alone. */
  function Arrivals(evs: seq<Event>): seq<Byte>
    decreases |evs|
  {
    if evs == [] then [] else Arrival(evs[0]) + Arrivals(evs[1..])
  }

  function Arrival(ev: Event): seq<Byte> { if ev.Isr? then [ev.b] else [] }

  /** A byte finds room, a getchar does not find the stray state, a flush finds nothing. */
  predicate Faithful(s: PortState, ev: Event)
    requires s.ring.Valid()
  {
    match ev
    case Isr(_) => s.Free() > 0
    case GetcharTake => !StrayGetch(s.ring)
    case RxFlush => s.ring.Contents() == []
    case _ => true
  }

  /** A step keeps the stream exactly when it is faithful. */
  lemma StreamStep(s: PortState, ev: Event)
    requires s.ring.Valid()
    ensures PortStep(s, ev).ring.Valid()
    ensures Output(s, ev) + PortStep(s, ev).ring.Contents() == s.ring.Contents() + Arrival(ev) <==> Faithful(s, ev)
  {
    PortStepValid(s, ev);
    var c := s.ring.Contents();
    assert [] + c == c + [];
    match ev
    case Isr(b) => StreamIsr(s, b);
    case GetcharTake => StreamGetchar(s);
    case ReadTake(n) =>
      GetSpec(s.ring, n);
      Parted(c, Min(n, |c|));
    case ReadWrap =>
      TakeToEndSpec(s.ring);
      Parted(c, |s.ring.TakeToEnd().1|);
    case RxFlush => FlushSpec(s.ring);
    case _ =>
  }

  lemma Parted(c: seq<Byte>, m: nat)
    requires m <= |c|
    ensures c[..m] + c[m..] == c + []
  {
  }

  lemma StreamIsr(s: PortState, b: Byte)
    requires s.ring.Valid()
    ensures PortStep(s, Isr(b)).ring.Valid()
    ensures [] + PortStep(s, Isr(b)).ring.Contents() == s.ring.Contents() + [b] <==> s.Free() > 0
  {
    PutchSpec(s.ring, b);
  }

  lemma StreamGetchar(s: PortState)
    requires s.ring.Valid()
    ensures PortStep(s, GetcharTake).ring.Valid()
    ensures Output(s, GetcharTake) + PortStep(s, GetcharTake).ring.Contents() == s.ring.Contents() + []
      <==> !StrayGetch(s.ring)
  {
    GetchSpec(s.ring);
    var c := s.ring.Contents();
    if c != [] {
      FirstTaken(c, s.ring.Getch().1.value);
    } else if StrayGetch(s.ring) {
      assert |PortStep(s, GetcharTake).ring.Contents()| > 0;
    }
  }

  lemma FirstTaken(c: seq<Byte>, b: Byte)
    requires c != []
    ensures [b] + c[1..] == c + [] <==> b == c[0]
  {
    assert ([b] + c[1..])[0] == b && (c + [])[0] == c[0];
  }

  predicate AllFaithful(s: PortState, evs: seq<Event>)
    requires s.ring.Valid()
    decreases |evs|
  {
    evs == [] ||
    (Faithful(s, evs[0]) && (PortStepValid(s, evs[0]); AllFaithful(PortStep(s, evs[0]), evs[1..])))
  }

  /** A reading call asserts RTS if flow control is on and eight bytes are free, or many were read;
      otherwise neither RTS nor the pin changes. */
  predicate RtsAfter(before: PortState, after: PortState, many: bool)
    requires after.ring.Valid()
  {
    var reassert := before.flow && !before.rts && (many || after.Free() >= RTS_ASSERT_BYTES);
    && after.flow == before.flow && after.rts == (before.rts || reassert)
    && after.pin == (before.pin && !reassert)
  }

  /** What a whole read leaves of its port. */
  lemma ReadSpec(s: PortState, n: nat)
    requires s.ring.Valid() && s.pending == Nothing
    ensures var r, out := PortStep(s, ReadTake(n)), Output(s, ReadTake(n));
            && r.ring.Valid() && |out| == Min(n, |s.ring.Contents()|)
            && out == s.ring.Contents()[..|out|] && r.ring.Contents() == s.ring.Contents()[|out|..]
            && PortStep(r, Check).ring == r.ring
            && RtsAfter(s, PortStep(r, Check), |out| >= RTS_ASSERT_BYTES)
  {
    GetSpec(s.ring, n);
  }

  /** What a whole getchar leaves of its port. */
  lemma GetcharSpec(s: PortState)
    requires s.ring.Valid() && s.pending == Nothing
    ensures var r, c := PortStep(s, GetcharTake), s.ring.Contents();
            && r.ring.Valid() && PortStep(r, Check).ring == r.ring
            && (s.ring.Getch().1 != None ==> RtsAfter(s, PortStep(r, Check), false))
            && (!StrayGetch(s.ring) ==>
                  if c == [] then s.ring.Getch().1 == None && r.ring.Contents() == []
                  else s.ring.Getch().1 == Some(c[0]) && r.ring.Contents() == c[1..])
  {
    GetchSpec(s.ring);
  }

  /** The interrupt stores its byte if there is room, and drops RTS if that leaves fewer than eight
      bytes free. */
  predicate Stored(before: PortState, after: PortState, b: Byte)
    requires before.ring.Valid() && after.ring.Valid()
  {
    var drop := before.flow && before.rts && after.Free() < RTS_ASSERT_BYTES;
    && (before.Free() > 0 ==> after.ring.Contents() == before.ring.Contents() + [b])
    && (before.Free() == 0 && !Overrun(before.ring) ==> after.ring.Contents() == before.ring.Contents())
    && after.flow == before.flow && after.rts == (before.rts && !drop) && after.pin == (before.pin || drop)
  }

  lemma IsrSpec(s: PortState, b: Byte)
    requires s.ring.Valid()
    ensures PortStep(s, Isr(b)).ring.Valid() && Stored(s, PortStep(s, Isr(b)), b)
  {
    PutchSpec(s.ring, b);
  }

  /** Flow control goes on or off, and RTS follows: asserted when off, by the free space when on. */
  predicate FlowSet(before: PortState, after: PortState, enabled: bool)
    requires before.ring.Valid()
  {
    var rts := !enabled || before.Free() >= RTS_ASSERT_BYTES;
    after == before.(flow := enabled, rts := rts, pin := !rts)
  }

  /** Over every faithful run, the bytes handed out followed by those in the ring are the bytes that
      were there followed by those that have arrived. */
  lemma {:induction false} StreamRun(s: PortState, evs: seq<Event>)
    requires s.ring.Valid() && AllFaithful(s, evs)
    ensures Delivered(s, evs) + PortRun(s, evs).ring.Contents() == s.ring.Contents() + Arrivals(evs)
    decreases |evs|
  {
    if evs == [] {
      assert [] + s.ring.Contents() == s.ring.Contents() + [];
    } else {
      var s' := PortStep(s, evs[0]);
      StreamStep(s, evs[0]);
      StreamRun(s', evs[1..]);
      StreamNext(Output(s, evs[0]), Delivered(s', evs[1..]), PortRun(s', evs[1..]).ring.Contents(),
                 s.ring.Contents(), s'.ring.Contents(), Arrival(evs[0]), Arrivals(evs[1..]));
    }
  }

  lemma StreamNext(out: seq<Byte>, outs: seq<Byte>, last: seq<Byte>, c: seq<Byte>, c': seq<Byte>, a: seq<Byte>,
                   arrivals: seq<Byte>)
    requires out + c' == c + a && outs + last == c' + arrivals
    ensures (out + outs) + last == c + (a + arrivals)
  {
    assert (out + outs) + last == out + (outs + last);
    assert out + (c' + arrivals) == (out + c') + arrivals;
    assert (c + a) + arrivals == c + (a + arrivals);
  }

  /** Bytes a peer may still send after it has seen RTS drop. */
  const PEER_SLACK: nat := RTS_ASSERT_BYTES - 1

  /** How many it has sent since RTS dropped. */
  function NextSlack(s: PortState, k: nat, ev: Event): nat
    requires s.ring.Valid()
  {
    if s.rts || PortStep(s, ev).rts then 0 else if ev.Isr? then k + 1 else k
  }

  /** The peer sends while RTS is asserted, and at most PEER_SLACK bytes after it drops. */
  predicate PeerStops(s: PortState, k: nat, evs: seq<Event>)
    requires s.ring.Valid()
    decreases |evs|
  {
    evs == [] ||
    ((evs[0].Isr? ==> s.rts || k < PEER_SLACK) &&
     (PortStepValid(s, evs[0]); PeerStops(PortStep(s, evs[0]), NextSlack(s, k, evs[0]), evs[1..])))
  }

  predicate RoomLeft(s: PortState, k: nat)
    requires s.ring.Valid()
  {
    RtsExact(s) && (!s.rts ==> s.Free() + k >= PEER_SLACK)
  }

  lemma RoomStep(s: PortState, k: nat, ev: Event)
    requires s.ring.Valid() && RoomLeft(s, k) && Allowed(s, ev) && !Race(s, ev)
    requires (ev.Isr? ==> s.rts || k < PEER_SLACK) && (ev == GetcharTake ==> !StrayGetch(s.ring))
    ensures PortStep(s, ev).ring.Valid() && RoomLeft(PortStep(s, ev), NextSlack(s, k, ev))
    ensures ev.Isr? ==> s.Free() > 0
  {
    RtsStep(s, ev);
    match ev
    case Isr(b) => PutchSpec(s.ring, b);
    case ReadTake(n) => GetSpec(s.ring, n);
    case ReadWrap => TakeToEndSpec(s.ring);
    case GetcharTake => GetchSpec(s.ring);
    case _ =>
  }

  /** The getchars of the run do not find the stray state. */
  predicate NoStray(s: PortState, evs: seq<Event>)
    requires s.ring.Valid()
    decreases |evs|
  {
    evs == [] ||
    ((evs[0] == GetcharTake ==> !StrayGetch(s.ring)) &&
     (PortStepValid(s, evs[0]); NoStray(PortStep(s, evs[0]), evs[1..])))
  }

  /** Over every race-free run with a peer that stops within seven bytes, each byte finds room. */
  lemma {:induction false} NothingRefused(s: PortState, k: nat, evs: seq<Event>)
    requires s.ring.Valid() && RoomLeft(s, k) && AllAllowed(s, evs) && PeerStops(s, k, evs) && NoStray(s, evs)
    ensures AllFaithful(s, evs)
    decreases |evs|
  {
    if evs != [] {
      RoomStep(s, k, evs[0]);
      NothingRefused(PortStep(s, evs[0]), NextSlack(s, k, evs[0]), evs[1..]);
    }
  }

  /** So the client gets exactly what the peer has sent. */
  lemma StreamDelivered(s: PortState, k: nat, evs: seq<Event>)
    requires s.ring.Valid() && RoomLeft(s, k) && AllAllowed(s, evs) && PeerStops(s, k, evs) && NoStray(s, evs)
    ensures Delivered(s, evs) + PortRun(s, evs).ring.Contents() == s.ring.Contents() + Arrivals(evs)
    ensures RtsExact(PortRun(s, evs))
  {
    NothingRefused(s, k, evs);
    StreamRun(s, evs);
    RtsRun(s, evs);
  }

  /** A client that reads with getchar only needs nothing but the peer's word. */
  lemma GetcharClientGetsAll(s: PortState, k: nat, evs: seq<Event>)
    requires s.ring.Valid() && RoomLeft(s, k) && s.ring.head <= s.ring.mask && !s.pending.AfterRead?
    requires AllInOrder(s, evs) && PeerStops(s, k, evs)
    requires forall i :: 0 <= i < |evs| ==> !evs[i].ReadTake? && !evs[i].ReadWrap?
    ensures Delivered(s, evs) + PortRun(s, evs).ring.Contents() == s.ring.Contents() + Arrivals(evs)
  {
    GetcharOnlyNeverRaces(s, evs);
    GetcharOnlyNeverStrays(s, evs);
    StreamDelivered(s, k, evs);
  }

  lemma {:induction false} GetcharOnlyNeverStrays(s: PortState, evs: seq<Event>)
    requires s.ring.Valid() && s.ring.head <= s.ring.mask && !s.pending.AfterRead? && AllInOrder(s, evs)
    requires forall i :: 0 <= i < |evs| ==> !evs[i].ReadTake? && !evs[i].ReadWrap?
    ensures NoStray(s, evs)
    decreases |evs|
  {
    if evs != [] {
      GetcharClientStep(s, evs[0]);
      GetcharOnlyNeverStrays(PortStep(s, evs[0]), evs[1..]);
    }
  }

  // ---------------------------------------------------------------- the packed byte

  /** _FLAG_FLOW and _FLAG_RTS of a port number. */
  function Number(p: Port): bv8 { if p.Host? then 1 else 2 }
  function FlagFlow(x: bv8): bv8 { x }
  function FlagRts(x: bv8): bv8 { x << 2 }

  datatype Sys = Sys(flags: bv8, hostPin: bool, emberPin: bool, hostRing: Ring, emberRing: Ring,
                     hostPending: Pending, emberPending: Pending)
  {
    function RingOf(p: Port): Ring { if p.Host? then hostRing else emberRing }
    function PinOf(p: Port): bool { if p.Host? then hostPin else emberPin }
    function PendingOf(p: Port): Pending { if p.Host? then hostPending else emberPending }
    function WithRing(p: Port, r: Ring): Sys { if p.Host? then this.(hostRing := r) else this.(emberRing := r) }
    function WithPin(p: Port, high: bool): Sys { if p.Host? then this.(hostPin := high) else this.(emberPin := high) }
    function WithPending(p: Port, c: Pending): Sys
    {
      if p.Host? then this.(hostPending := c) else this.(emberPending := c)
    }
    predicate Valid() { hostRing.Valid() && emberRing.Valid() }
  }

  predicate FlowBit(f: bv8, p: Port) { f & FlagFlow(Number(p)) != 0 }
  predicate RtsBit(f: bv8, p: Port) { f & FlagRts(Number(p)) != 0 }

  /** Setting or clearing a port's flow or RTS bit. */
  function WithFlow(f: bv8, p: Port, on: bool): bv8
  {
    if on then f | FlagFlow(Number(p)) else f & !FlagFlow(Number(p))
  }

  function WithRts(f: bv8, p: Port, on: bool): bv8
  {
    if on then f | FlagRts(Number(p)) else f & !FlagRts(Number(p))
  }

  /** A port's own state, unpacked. */
  function Project(s: Sys, p: Port): PortState
  {
    PortState(FlowBit(s.flags, p), RtsBit(s.flags, p), s.PinOf(p), s.RingOf(p), s.PendingOf(p))
  }

  function Free(r: Ring): int
    requires r.Valid()
  {
    r.mask - |r.Contents()|
  }

  /** xbee_ser_set_rts. */
  function SetRts(s: Sys, p: Port, asserted: bool): Sys
  {
    s.WithPin(p, !asserted).(flags := WithRts(s.flags, p, asserted))
  }

  /** XBEE_SER_CHECK_RTS: flow control on and RTS deasserted. */
  predicate CheckRts(s: Sys, p: Port)
  {
    ((s.flags >> (if p.Host? then 0 else 1)) & (FlagFlow(1) | FlagRts(1))) == FlagFlow(1)
  }

  /** _ISR_RTS. */
  function IsrRts(s: Sys, p: Port): Sys
    requires s.RingOf(p).Valid()
  {
    var both := FlagFlow(Number(p)) | FlagRts(Number(p));
    if (s.flags & both) == both && Free(s.RingOf(p)) < RTS_ASSERT_BYTES
    then s.WithPin(p, true).(flags := WithRts(s.flags, p, false))
    else s
  }

  function SysReassert(s: Sys, p: Port): Sys
    requires s.Valid()
  {
    if CheckRts(s, p) && Enough(s.RingOf(p), s.PendingOf(p)) then SetRts(s, p, true) else s
  }

  function SysStep(s: Sys, p: Port, ev: Event): Sys
    requires s.Valid()
  {
    match ev
    case Isr(b) =>
      PutchSpec(s.RingOf(p), b);
      IsrRts(s.WithRing(p, s.RingOf(p).Putch(b).0), p)
    case ReadTake(n) =>
      var (ring', out) := s.RingOf(p).Get(n);
      s.WithRing(p, ring').WithPending(p, Reading(s.PendingOf(p), |out|))
    case ReadWrap =>
      var (ring', out) := s.RingOf(p).TakeToEnd();
      s.WithRing(p, ring').WithPending(p, Reading(s.PendingOf(p), |out|))
    case GetcharTake =>
      var (ring', b) := s.RingOf(p).Getch();
      s.WithRing(p, ring').WithPending(p, if b == None then s.PendingOf(p) else AfterGetch)
    case Check =>
      SysReassert(s, p).WithPending(p, Nothing)
    case Flow(enabled) =>
      SetRts(s.(flags := WithFlow(s.flags, p, enabled)), p, !enabled || Free(s.RingOf(p)) >= RTS_ASSERT_BYTES)
    case ManualRts(asserted) => SetRts(s, p, asserted)
    case RxFlush => s.WithRing(p, s.RingOf(p).Flush())
  }

  lemma RtsLaws(f: bv8, p: Port, q: Port, on: bool)
    ensures RtsBit(WithRts(f, p, on), q) == if p == q then on else RtsBit(f, q)
    ensures FlowBit(WithRts(f, p, on), q) == FlowBit(f, q)
  {
  }

  lemma FlowLaws(f: bv8, p: Port, q: Port, on: bool)
    ensures FlowBit(WithFlow(f, p, on), q) == if p == q then on else FlowBit(f, q)
    ensures RtsBit(WithFlow(f, p, on), q) == RtsBit(f, q)
  {
  }

  lemma TestLaws(s: Sys, p: Port)
    ensures CheckRts(s, p) <==> FlowBit(s.flags, p) && !RtsBit(s.flags, p)
    ensures var both := FlagFlow(Number(p)) | FlagRts(Number(p));
            ((s.flags & both) == both) <==> FlowBit(s.flags, p) && RtsBit(s.flags, p)
  {
  }

  lemma SetRtsProjects(s: Sys, p: Port, asserted: bool, q: Port)
    ensures Project(SetRts(s, p, asserted), q) == if p == q then Assert(Project(s, q), asserted) else Project(s, q)
  {
    RtsLaws(s.flags, p, q, asserted);
  }

  lemma IsrRtsProjects(s: Sys, p: Port, q: Port)
    requires s.Valid()
    ensures Project(IsrRts(s, p), q) == if p == q then DropIfTight(Project(s, q)) else Project(s, q)
  {
    TestLaws(s, p);
    RtsLaws(s.flags, p, q, false);
  }

  lemma RingProjects(s: Sys, p: Port, r: Ring, q: Port)
    ensures Project(s.WithRing(p, r), q) == if p == q then Project(s, q).(ring := r) else Project(s, q)
  {
  }

  lemma IsrProjects(s: Sys, p: Port, b: Byte, q: Port)
    requires s.Valid()
    ensures Project(SysStep(s, p, Isr(b)), q)
         == if p == q then PortStep(Project(s, q), Isr(b)) else Project(s, q)
  {
    PutchSpec(s.RingOf(p), b);
    var r := s.RingOf(p).Putch(b).0;
    RingProjects(s, p, r, q);
    IsrRtsProjects(s.WithRing(p, r), p, q);
  }

  lemma ReassertProjects(s: Sys, p: Port, q: Port)
    requires s.Valid()
    ensures Project(SysReassert(s, p), q) == if p == q then Reassert(Project(s, q)) else Project(s, q)
  {
    TestLaws(s, p);
    SetRtsProjects(s, p, true, q);
  }

  lemma PendingProjects(s: Sys, p: Port, c: Pending, q: Port)
    ensures Project(s.WithPending(p, c), q) == if p == q then Project(s, q).(pending := c) else Project(s, q)
  {
  }

  lemma CheckProjects(s: Sys, p: Port, q: Port)
    requires s.Valid()
    ensures Project(SysStep(s, p, Check), q)
         == if p == q then PortStep(Project(s, q), Check) else Project(s, q)
  {
    ReassertProjects(s, p, q);
    PendingProjects(SysReassert(s, p), p, Nothing, q);
  }

  lemma SetFlowProjects(s: Sys, p: Port, enabled: bool, q: Port)
    ensures Project(s.(flags := WithFlow(s.flags, p, enabled)), q)
         == if p == q then Project(s, q).(flow := enabled) else Project(s, q)
  {
    FlowLaws(s.flags, p, q, enabled);
  }

  lemma FlowProjects(s: Sys, p: Port, enabled: bool, q: Port)
    requires s.Valid()
    ensures Project(SysStep(s, p, Flow(enabled)), q)
         == if p == q then PortStep(Project(s, q), Flow(enabled)) else Project(s, q)
  {
    SetFlowProjects(s, p, enabled, q);
    SetRtsProjects(s.(flags := WithFlow(s.flags, p, enabled)), p, !enabled || Free(s.RingOf(p)) >= RTS_ASSERT_BYTES, q);
  }

  lemma TakeProjects(s: Sys, p: Port, ev: Event, q: Port)
    requires s.Valid() && (ev.ReadTake? || ev.ReadWrap? || ev.GetcharTake? || ev.RxFlush?)
    ensures Project(SysStep(s, p, ev), q)
         == if p == q then PortStep(Project(s, q), ev) else Project(s, q)
  {
  }

  /** The packed driver is two independent ports: a step of one port is that port's step, and the
      other port's bits, pin and ring do not change. */
  lemma StepProjects(s: Sys, p: Port, ev: Event, q: Port)
    requires s.Valid()
    ensures Project(SysStep(s, p, ev), q)
         == if p == q then PortStep(Project(s, q), ev) else Project(s, q)
  {
    match ev
    case Isr(b) => IsrProjects(s, p, b, q);
    case Check => CheckProjects(s, p, q);
    case Flow(enabled) => FlowProjects(s, p, enabled, q);
    case ManualRts(asserted) => SetRtsProjects(s, p, asserted, q);
    case _ => TakeProjects(s, p, ev, q);
  }

  lemma SysStepValid(s: Sys, p: Port, ev: Event)
    requires s.Valid()
    ensures SysStep(s, p, ev).Valid()
  {
    PortStepValid(Project(s, p), ev);
    StepProjects(s, p, ev, Host);
    StepProjects(s, p, ev, Ember);
  }

  function SysRun(s: Sys, evs: seq<(Port, Event)>): (s': Sys)
    requires s.Valid()
    ensures s'.Valid()
    decreases |evs|
  {
    if evs == [] then s
    else
      SysStepValid(s, evs[0].0, evs[0].1);
      SysRun(SysStep(s, evs[0].0, evs[0].1), evs[1..])
  }

  /** The events of one port, in order. */
  function Only(evs: seq<(Port, Event)>, p: Port): seq<Event>
    decreases |evs|
  {
    if evs == [] then []
    else if evs[0].0 == p then [evs[0].1] + Only(evs[1..], p)
    else Only(evs[1..], p)
  }

  /** Over every interleaving of both ports, each port behaves as if it were alone. */
  lemma {:induction false} PortsIndependent(s: Sys, evs: seq<(Port, Event)>, p: Port)
    requires s.Valid()
    ensures Project(SysRun(s, evs), p) == PortRun(Project(s, p), Only(evs, p))
    decreases |evs|
  {
    if evs != [] {
      var s' := SysStep(s, evs[0].0, evs[0].1);
      SysStepValid(s, evs[0].0, evs[0].1);
      StepProjects(s, evs[0].0, evs[0].1, p);
      PortsIndependent(s', evs[1..], p);
      if evs[0].0 == p {
        assert Only(evs, p)[1..] == Only(evs[1..], p);
      }
    }
  }

  /** RTS of each port is exact after any interleaving of both ports' allowed events. */
  lemma RtsExactOnBothPorts(s: Sys, evs: seq<(Port, Event)>, p: Port)
    requires s.Valid() && RtsExact(Project(s, p)) && AllAllowed(Project(s, p), Only(evs, p))
    ensures RtsExact(Project(SysRun(s, evs), p))
  {
    PortsIndependent(s, evs, p);
    RtsRun(Project(s, p), Only(evs, p));
  }

  /** The bytes a run of both ports hands to the clients of one. */
  function SysDelivered(s: Sys, evs: seq<(Port, Event)>, p: Port): seq<Byte>
    requires s.Valid()
    decreases |evs|
  {
    if evs == [] then []
    else
      SysStepValid(s, evs[0].0, evs[0].1);
      (if evs[0].0 == p then Output(Project(s, p), evs[0].1) else [])
      + SysDelivered(SysStep(s, evs[0].0, evs[0].1), evs[1..], p)
  }

  lemma {:induction false} DeliveredOnPort(s: Sys, evs: seq<(Port, Event)>, p: Port)
    requires s.Valid()
    ensures SysDelivered(s, evs, p) == Delivered(Project(s, p), Only(evs, p))
    decreases |evs|
  {
    if evs != [] {
      var s' := SysStep(s, evs[0].0, evs[0].1);
      SysStepValid(s, evs[0].0, evs[0].1);
      StepProjects(s, evs[0].0, evs[0].1, p);
      DeliveredOnPort(s', evs[1..], p);
      if evs[0].0 == p {
        assert Only(evs, p)[1..] == Only(evs[1..], p);
      }
    }
  }

  /** Over every interleaving of both ports, each client gets exactly what its own peer has sent. */
  lemma StreamsOnBothPorts(s: Sys, evs: seq<(Port, Event)>, p: Port, k: nat)
    requires s.Valid() && RoomLeft(Project(s, p), k) && AllAllowed(Project(s, p), Only(evs, p))
    requires PeerStops(Project(s, p), k, Only(evs, p)) && NoStray(Project(s, p), Only(evs, p))
    ensures SysDelivered(s, evs, p) + SysRun(s, evs).RingOf(p).Contents()
         == s.RingOf(p).Contents() + Arrivals(Only(evs, p))
  {
    PortsIndependent(s, evs, p);
    DeliveredOnPort(s, evs, p);
    StreamDelivered(Project(s, p), k, Only(evs, p));
  }

  lemma FlowSpec(s: Sys, p: Port, enabled: bool)
    requires s.Valid()
    ensures var r := SysStep(s, p, Flow(enabled));
            && FlowSet(Project(s, p), Project(r, p), enabled)
            && Project(r, Other(p)) == Project(s, Other(p))
  {
    FlowProjects(s, p, enabled, p);
    FlowProjects(s, p, enabled, Other(p));
  }

  function TwoSteps(s: Sys, p: Port, a: Event, b: Event): Sys
    requires s.Valid()
  {
    SysStepValid(s, p, a);
    SysStep(SysStep(s, p, a), p, b)
  }

  function PortSteps(s: PortState, a: Event, b: Event): PortState
    requires s.ring.Valid()
  {
    PortStepValid(s, a);
    PortStep(PortStep(s, a), b)
  }

  lemma StepsProject(s: Sys, p: Port, a: Event, b: Event, q: Port)
    requires s.Valid()
    ensures Project(TwoSteps(s, p, a, b), q)
         == if p == q then PortSteps(Project(s, q), a, b) else Project(s, q)
  {
    SysStepValid(s, p, a);
    StepProjects(s, p, a, q);
    StepProjects(SysStep(s, p, a), p, b, q);
  }

  // ---------------------------------------------------------------- the driver in memory

  /** _flags, the two RTS pins and the two receive rings. */
  class Driver {
    const hostBuf: Cbuf
    const emberBuf: Cbuf
    var flags: bv8
    var hostPin: bool
    var emberPin: bool
    ghost const Repr: set<object>

    constructor (hostBuf: Cbuf, emberBuf: Cbuf)
      requires hostBuf != emberBuf && hostBuf.data != emberBuf.data
      requires hostBuf.Valid() && emberBuf.Valid()
      ensures Valid() && flags == 0 && !hostPin && !emberPin
      ensures this.hostBuf == hostBuf && this.emberBuf == emberBuf
    {
      this.hostBuf, this.emberBuf := hostBuf, emberBuf;
      flags, hostPin, emberPin := 0, false, false;
      Repr := {this, hostBuf, hostBuf.data, emberBuf, emberBuf.data};
    }

    ghost predicate Valid()
      reads this, hostBuf, hostBuf.data, emberBuf, emberBuf.data
    {
      && Repr == {this, hostBuf, hostBuf.data, emberBuf, emberBuf.data}
      && hostBuf != emberBuf && hostBuf.data != emberBuf.data
      && hostBuf.Valid() && emberBuf.Valid()
    }

    /** Between calls. */
    ghost function View(): Sys
      reads this, hostBuf, hostBuf.data, emberBuf, emberBuf.data
    {
      Sys(flags, hostPin, emberPin, hostBuf.View(), emberBuf.View(), Nothing, Nothing)
    }

    function Buf(p: Port): Cbuf { if p.Host? then hostBuf else emberBuf }

    /** One port between calls. */
    ghost function At(p: Port): PortState
      reads this, hostBuf, hostBuf.data, emberBuf, emberBuf.data
    {
      Project(View(), p)
    }

    /** The bytes that wait to be read. */
    ghost function ToRead(p: Port): seq<Byte>
      requires hostBuf.Valid() && emberBuf.Valid()
      reads this, hostBuf, hostBuf.data, emberBuf, emberBuf.data
    {
      At(p).ring.Contents()
    }

    /** xbee_ser_set_rts. */
    method SetRtsPin(p: Port, asserted: bool)
      requires Valid()
      modifies this
      ensures Valid() && View() == SysStep(old(View()), p, ManualRts(asserted))
      ensures At(p) == old(At(p)).(rts := asserted, pin := !asserted) && At(Other(p)) == old(At(Other(p)))
    {
      SetRtsProjects(View(), p, asserted, p);
      SetRtsProjects(View(), p, asserted, Other(p));
      if p.Host? {
        hostPin := !asserted;
      } else {
        emberPin := !asserted;
      }
      flags := WithRts(flags, p, asserted);
    }

    method FreeOf(p: Port) returns (n: int)
      requires Valid()
      ensures n == Free(View().RingOf(p))
    {
      n := Buf(p).Free();
    }

    method SetFlow(p: Port, enabled: bool)
      requires Valid()
      modifies this`flags
      ensures Valid() && View() == old(View()).(flags := WithFlow(old(flags), p, enabled))
    {
      flags := WithFlow(flags, p, enabled);
    }

    /** xbee_ser_flowcontrol. */
    method Flowcontrol(p: Port, enabled: bool)
      requires Valid()
      modifies this
      ensures Valid() && View() == SysStep(old(View()), p, Flow(enabled))
      ensures FlowSet(old(At(p)), At(p), enabled) && At(Other(p)) == old(At(Other(p)))
    {
      FlowSpec(View(), p, enabled);
      var free := FreeOf(p);
      SetFlow(p, enabled);
      if enabled {
        SetRtsPin(p, free >= RTS_ASSERT_BYTES);
      } else {
        SetRtsPin(p, true);
      }
    }

    /** vSci1Rx and vSci2Rx. */
    method RxIsr(p: Port, b: Byte)
      requires Valid()
      modifies Repr
      ensures Valid() && View() == SysStep(old(View()), p, Isr(b))
      ensures Stored(old(At(p)), At(p), b) && At(Other(p)) == old(At(Other(p)))
    {
      IsrSpec(At(p), b);
      IsrProjects(View(), p, b, p);
      IsrProjects(View(), p, b, Other(p));
      var ok := Buf(p).Putch(b);
      DropRts(p);
    }

    /** _ISR_RTS. */
    method DropRts(p: Port)
      requires Valid()
      modifies this
      ensures Valid() && View() == IsrRts(old(View()), p)
    {
      var both := FlagFlow(Number(p)) | FlagRts(Number(p));
      if flags & both == both {
        var free := Buf(p).Free();
        if free < RTS_ASSERT_BYTES {
          flags := WithRts(flags, p, false);
          if p.Host? {
            hostPin := true;
          } else {
            emberPin := true;
          }
        }
      }
    }

    /** The bytes a read takes from the port's ring. */
    method Take(p: Port, n: nat) returns (out: seq<Byte>)
      requires Valid()
      modifies Repr
      ensures Valid()
      ensures View() == old(View()).WithRing(p, old(View()).RingOf(p).Get(n).0)
      ensures out == old(View()).RingOf(p).Get(n).1
    {
      out := Buf(p).Get(n);
    }

    method ReadSome(p: Port, n: nat) returns (ret: nat, out: seq<Byte>)
      requires Valid()
      modifies Repr
      ensures Valid()
      ensures ret == |out| && out == old(View()).RingOf(p).Get(n).1
      ensures View() == TwoSteps(old(View()), p, ReadTake(n), Check)
      ensures ret == Min(n, |old(ToRead(p))|)
      ensures out == old(ToRead(p))[..ret] && ToRead(p) == old(ToRead(p))[ret..]
      ensures RtsAfter(old(At(p)), At(p), ret >= RTS_ASSERT_BYTES) && At(Other(p)) == old(At(Other(p)))
    {
      ReadSpec(At(p), n);
      StepsProject(View(), p, ReadTake(n), Check, p);
      StepsProject(View(), p, ReadTake(n), Check, Other(p));
      SysStepValid(View(), p, ReadTake(n));
      out := Take(p, n);
      ret := |out|;
      EndOfCall(p, AfterRead(|out|));
    }

    /** xbee_ser_read, when no interrupt fires inside it. */
    method Read(p: Port, bufsize: int) returns (ret: int, out: seq<Byte>)
      requires Valid()
      modifies Repr
      ensures Valid()
      ensures bufsize == 0 ==> ret == 0 && View() == old(View())
      ensures bufsize < 0 ==> ret == -EINVAL && View() == old(View())
      ensures bufsize > 0 ==>
        && ret == |out| && out == old(View()).RingOf(p).Get(Min(bufsize, 255)).1
        && View() == TwoSteps(old(View()), p, ReadTake(Min(bufsize, 255)), Check)
        && ret == Min(Min(bufsize, 255), |old(ToRead(p))|)
        && out == old(ToRead(p))[..ret] && ToRead(p) == old(ToRead(p))[ret..]
        && RtsAfter(old(At(p)), At(p), ret >= RTS_ASSERT_BYTES) && At(Other(p)) == old(At(Other(p)))
    {
      out := [];
      if bufsize == 0 {
        return 0, out;
      }
      if bufsize < 0 {
        return -EINVAL, out;
      }
      var n := if bufsize > 255 then 255 else bufsize;
      ret, out := ReadSome(p, n);
    }

    /** xbee_ser_getchar, when no interrupt fires inside it. */
    method Getchar(p: Port) returns (ret: int)
      requires Valid()
      modifies Repr
      ensures Valid()
      ensures old(View()).RingOf(p).Getch().1 == None ==> ret == -ENODATA && View() == old(View())
      ensures old(View()).RingOf(p).Getch().1 != None ==>
        && old(View()).RingOf(p).Getch().1 == Some(ret)
        && View() == TwoSteps(old(View()), p, GetcharTake, Check)
        && RtsAfter(old(At(p)), At(p), false) && At(Other(p)) == old(At(Other(p)))
      ensures !StrayGetch(old(At(p)).ring) ==>
        if old(ToRead(p)) == [] then ret == -ENODATA && ToRead(p) == []
        else ret == old(ToRead(p))[0] && ToRead(p) == old(ToRead(p))[1..]
    {
      GetcharSpec(At(p));
      StepsProject(View(), p, GetcharTake, Check, p);
      StepsProject(View(), p, GetcharTake, Check, Other(p));
      var ch := Buf(p).Getch();
      if ch == None {
        return -ENODATA;
      }
      EndOfCall(p, AfterGetch);
      ret := ch.value;
    }

    /** xbee_ser_rx_flush. */
    method RxFlush(p: Port)
      requires Valid()
      modifies Repr
      ensures Valid() && View() == SysStep(old(View()), p, Event.RxFlush)
      ensures ToRead(p) == [] && At(p) == old(At(p)).(ring := At(p).ring) && At(Other(p)) == old(At(Other(p)))
    {
      FlushSpec(View().RingOf(p));
      Buf(p).Flush();
    }

    /** The last lines of both reading calls: reassert RTS if it is low and there is room. */
    method EndOfCall(p: Port, c: Pending)
      requires Valid()
      modifies this
      ensures Valid()
      ensures View() == SysReassert(old(View()).WithPending(p, c), p).WithPending(p, Nothing)
    {
      var check := ((flags >> (if p.Host? then 0 else 1)) & (FlagFlow(1) | FlagRts(1))) == FlagFlow(1);
      var free := FreeOf(p);
      if check && ((c.AfterRead? && c.retval >= RTS_ASSERT_BYTES) || free >= RTS_ASSERT_BYTES) {
        SetRtsPin(p, true);
      }
    }
  }
}
