/** The EFM32 serial driver over its two circular buffers. Every call and every interrupt is
    proved to be the steps that modules Efm32Tx and Efm32Rx reason about. */
module Efm32Serial {
  import opened CircularBuffer
  import opened Platform
  import T = Efm32Tx
  import R = Efm32Rx

  class Serial {
    const rx: Cbuf
    const tx: Cbuf
    var baudrate: nat
    var flowControlEnabled: bool
    var txBreak: bool
    var txbl: bool       // the USART's TXBL interrupt enable
    var rtsPin: bool     // high means RTS deasserted
    ghost var txm: T.Tx
    ghost var rxm: R.Rx

    ghost const Repr: set<object>

    ghost predicate Valid()
      reads this, rx, rx.data, tx, tx.data
    {
      && Repr == {this, rx, rx.data, tx, tx.data}
      && rx != tx && rx.data != tx.data
      && rx.Valid() && tx.Valid()
      && tx.mask == T.TX_BUFF_SIZE && tx.head <= tx.mask
      && txm.ring == tx.View().Contents() && txm.txbl == txbl && txm.brk == txBreak && txm.call.Idle?
      && T.Conserved(txm)
      && rxm.ring == rx.View() && rxm.rts == !rtsPin && rxm.fc == flowControlEnabled && !rxm.checking
      && rxm.Valid()
    }

    /** The bytes that wait to be sent, and those that wait to be read. */
    ghost function ToSend(): seq<Byte>
      requires tx.Valid()
      reads this, tx, tx.data
    {
      tx.View().Contents()
    }

    ghost function ToRead(): seq<Byte>
      requires rx.Valid()
      reads this, rx, rx.data
    {
      rx.View().Contents()
    }

    /** xbee_ser_open after the hardware is set up: rings initialised, break off, flow control on. */
    constructor (rx: Cbuf, tx: Cbuf, baudrate: nat)
      requires rx != tx && rx.data != tx.data
      requires rx.Valid() && rx.mask == R.RX_BUFF_SIZE && rx.head == rx.tail == 0
      requires tx.Valid() && tx.mask == T.TX_BUFF_SIZE && tx.head == tx.tail == 0
      ensures Valid() && this.rx == rx && this.tx == tx && this.baudrate == baudrate
      ensures txm == T.Opened() && rxm == R.Opened(rx.View())
      ensures ToSend() == [] && ToRead() == [] && !txBreak && txbl && flowControlEnabled && !rtsPin
    {
      this.rx, this.tx, this.baudrate := rx, tx, baudrate;
      flowControlEnabled, txBreak, txbl, rtsPin := true, false, true, false;
      txm, rxm := T.Opened(), R.Opened(rx.View());
      Repr := {this, rx, rx.data, tx, tx.data};
    }

    // -------------------------------------------------------------- transmit

    /** XBEE_TX_IRQ_NAME, entered because TXBL is enabled; ready is the TXBL status flag. */
    method TxIrq(ready: bool) returns (out: Option<Byte>)
      requires Valid() && txbl
      modifies Repr
      ensures Valid() && rxm == old(rxm) && baudrate == old(baudrate)
      ensures txm == if ready then T.Step(old(txm), T.TxIrq) else old(txm)
      ensures txm.sent == old(txm).sent + (if out.Some? then [out.value] else [])
      ensures !ready ==> out == None && ToSend() == old(ToSend()) && txbl
      ensures ready && (txBreak || old(ToSend()) == []) ==> out == None && ToSend() == old(ToSend()) && !txbl
      ensures ready && !txBreak && old(ToSend()) != [] ==>
        out == Some(old(ToSend())[0]) && ToSend() == old(ToSend())[1..] && txbl
      ensures txBreak == old(txBreak)
    {
      out := None;
      if ready {
        T.ConservedStep(txm, T.TxIrq);
        GetchSpec(tx.View());
        txm := T.Step(txm, T.TxIrq);
        if txBreak {
          txbl := false;
          return;
        }
        out := tx.Getch();
        if out == None {
          txbl := false;
        }
      }
    }

    /** xbee_ser_write, when no interrupt fires inside it. */
    method Write(buf: seq<Byte>, length: int) returns (ret: int)
      requires Valid() && length <= |buf|
      modifies Repr
      ensures Valid() && rxm == old(rxm) && baudrate == old(baudrate)
      ensures baudrate == 0 ==> ret == -EINVAL && txm == old(txm)
      ensures baudrate != 0 && (length < 0 || old(txBreak)) ==> ret == -EIO && txm == old(txm)
      ensures baudrate != 0 && length >= 0 && !old(txBreak) ==>
        && ret == Min(Min(length, T.TX_BUFF_SIZE), T.TX_BUFF_SIZE - |old(txm).ring|)
        && txm == T.Run(old(txm), [T.WriteStart(buf[..length]), T.WriteCopy(ret), T.WriteEnd])
        && txm.accepted == old(txm).accepted + buf[..ret]
        && ToSend() == old(ToSend()) + buf[..ret] && txbl
      ensures ret < 0 ==> ToSend() == old(ToSend()) && txbl == old(txbl)
      ensures txBreak == old(txBreak) && txm.sent == old(txm).sent
    {
      if baudrate == 0 {
        return -EINVAL;
      }
      if length < 0 || txBreak {
        return -EIO;
      }
      var count := Min(length, T.TX_BUFF_SIZE);
      ghost var n := Min(count, T.TX_BUFF_SIZE - |txm.ring|);
      assert buf[..count][..n] == buf[..n];
      WriteSteps(txm, buf, length, n);
      ret := EnqueueAndEnable(buf[..count]);
    }

    /** The part of a write after its argument checks. */
    method EnqueueAndEnable(buf: seq<Byte>) returns (ret: int)
      requires Valid()
      requires T.Conserved(T.Enqueue(txm, buf[..Min(|buf|, T.TX_BUFF_SIZE - |txm.ring|)]).(txbl := true))
      modifies Repr
      ensures Valid() && rxm == old(rxm) && baudrate == old(baudrate)
      ensures ret == Min(|buf|, T.TX_BUFF_SIZE - |old(txm).ring|)
      ensures txm == T.Enqueue(old(txm), buf[..ret]).(txbl := true)
    {
      PutSpec(tx.View(), buf);
      ret := tx.Put(buf);
      txbl := true;
      txm := T.Enqueue(txm, buf[..ret]).(txbl := true);
    }

    /** The three steps of an uninterrupted write. */
    static lemma WriteSteps(s: T.Tx, buf: seq<Byte>, length: nat, n: nat)
      requires s.call.Idle? && !s.brk && T.Conserved(s) && length <= |buf|
      requires n == Min(Min(length, T.TX_BUFF_SIZE), T.TX_BUFF_SIZE - |s.ring|)
      ensures T.Run(s, [T.WriteStart(buf[..length]), T.WriteCopy(n), T.WriteEnd])
           == T.Enqueue(s, buf[..n]).(txbl := true)
      ensures T.Conserved(T.Enqueue(s, buf[..n]).(txbl := true))
    {
      var a, b, c := T.WriteStart(buf[..length]), T.WriteCopy(n), T.WriteEnd;
      RunThree(s, a, b, c);
      assert buf[..length][..n] == buf[..n];
      var s1 := T.Step(s, a);
      assert s1.call == T.Writing(buf[..n]);
      assert buf[..n][..n] == buf[..n] && buf[..n][n..] == [];
      T.ConservedRun(s, [a, b, c]);
    }

    static lemma RunThree(s: T.Tx, a: T.Event, b: T.Event, c: T.Event)
      ensures T.Run(s, [a, b, c]) == T.Step(T.Step(T.Step(s, a), b), c)
    {
      assert [a, b, c][1..] == [b, c] && [b, c][1..] == [c] && [c][1..] == [];
      var s1, s2 := T.Step(s, a), T.Step(T.Step(s, a), b);
      assert T.Run(s, [a, b, c]) == T.Run(s1, [b, c]);
      assert T.Run(s1, [b, c]) == T.Run(s2, [c]);
      assert T.Run(s2, [c]) == T.Run(T.Step(s2, c), []);
    }

    /** xbee_ser_putchar, when no interrupt fires inside it. */
    method Putchar(ch: Byte) returns (ret: int)
      requires Valid()
      modifies Repr
      ensures Valid() && rxm == old(rxm) && baudrate == old(baudrate)
      ensures baudrate == 0 ==> ret == -EINVAL && txm == old(txm)
      ensures baudrate != 0 && old(txBreak) ==> ret == -EIO && txm == old(txm)
      ensures baudrate != 0 && !old(txBreak) ==>
        && ret == (if |old(txm).ring| < T.TX_BUFF_SIZE then 0 else -ENOSPC)
        && txm == T.Step(T.Step(old(txm), T.PutcharEnable(ch)), T.PutcharStore)
        && txbl
      ensures ret == 0 ==> ToSend() == old(ToSend()) + [ch] && txm.accepted == old(txm).accepted + [ch]
      ensures ret != 0 ==> ToSend() == old(ToSend()) && txm.accepted == old(txm).accepted
      ensures txBreak == old(txBreak) && txm.sent == old(txm).sent
    {
      if baudrate == 0 {
        return -EINVAL;
      }
      if txBreak {
        return -EIO;
      }
      T.ConservedStep(txm, T.PutcharEnable(ch));
      txm := T.Step(txm, T.PutcharEnable(ch));
      txbl := true;
      T.ConservedStep(txm, T.PutcharStore);
      PutchSpec(tx.View(), ch);
      txm := T.Step(txm, T.PutcharStore);
      var ok := tx.Putch(ch);
      ret := if ok then 0 else -ENOSPC;
    }

    /** xbee_ser_break. */
    method Break(enabled: bool) returns (ret: int)
      requires Valid()
      modifies Repr
      ensures Valid() && rxm == old(rxm) && baudrate == old(baudrate)
      ensures ret == (if baudrate == 0 then -EINVAL else 0)
      ensures txm == if baudrate == 0 then old(txm)
                     else T.Step(T.Step(old(txm), T.BreakSet(enabled)), T.BreakMask)
      ensures baudrate != 0 ==> txBreak == enabled && txbl == !enabled
      ensures ToSend() == old(ToSend()) && txm.accepted == old(txm).accepted && txm.sent == old(txm).sent
    {
      if baudrate == 0 {
        return -EINVAL;
      }
      T.ConservedStep(txm, T.BreakSet(enabled));
      T.ConservedStep(T.Step(txm, T.BreakSet(enabled)), T.BreakMask);
      txm := T.Step(T.Step(txm, T.BreakSet(enabled)), T.BreakMask);
      if enabled {
        txBreak := true;
        txbl := false;
      } else {
        txBreak := false;
        txbl := true;
      }
      ret := 0;
    }

    /** xbee_ser_tx_flush. */
    method TxFlush() returns (ret: int)
      requires Valid()
      modifies Repr
      ensures Valid() && rxm == old(rxm) && baudrate == old(baudrate)
      ensures ret == (if baudrate == 0 then -EINVAL else 0)
      ensures txm == if baudrate == 0 then old(txm) else T.Step(old(txm), T.TxFlush)
      ensures baudrate != 0 ==> ToSend() == [] && txm.sent == old(txm).sent && txm.accepted == old(txm).accepted
      ensures txBreak == old(txBreak) && txbl == old(txbl)
    {
      if baudrate == 0 {
        return -EINVAL;
      }
      T.ConservedStep(txm, T.TxFlush);
      FlushSpec(tx.View());
      txm := T.Step(txm, T.TxFlush);
      tx.Flush();
      ret := 0;
    }

    // -------------------------------------------------------------- receive

    method CheckRxBufferUpper()
      requires rx.Valid() && rx.mask == R.RX_BUFF_SIZE
      modifies this`rtsPin
      ensures rtsPin == (old(rtsPin) || R.RX_BUFF_SIZE - |rx.View().Contents()| <= R.BUFFER_UPPER_BOUND)
    {
      var free := rx.Free();
      if free <= R.BUFFER_UPPER_BOUND {
        rtsPin := true;
      }
    }

    method CheckRxBufferLower()
      requires rx.Valid() && rx.mask == R.RX_BUFF_SIZE
      modifies this`rtsPin
      ensures rtsPin == (old(rtsPin) && |rx.View().Contents()| > R.BUFFER_LOWER_BOUND)
    {
      var used := rx.Used();
      if used <= R.BUFFER_LOWER_BOUND {
        rtsPin := false;
      }
    }

    /** XBEE_RX_IRQ_NAME; data is the received byte, if RXDATAV says there is one. */
    method RxIrq(data: Option<Byte>)
      requires Valid()
      modifies Repr
      ensures Valid() && txm == old(txm) && baudrate == old(baudrate)
      ensures rxm == if data == None then old(rxm) else R.Step(old(rxm), R.RxIrq(data.value))
      ensures data.Some? && |old(ToRead())| < R.RX_BUFF_SIZE ==> ToRead() == old(ToRead()) + [data.value]
      ensures data.Some? && |old(ToRead())| == R.RX_BUFF_SIZE && !old(Overrun(rx.View())) ==> ToRead() == old(ToRead())
      ensures data.Some? ==> rtsPin == (old(rtsPin) || R.RX_BUFF_SIZE - |ToRead()| <= R.BUFFER_UPPER_BOUND)
      ensures flowControlEnabled == old(flowControlEnabled)
    {
      if data.Some? {
        R.RxIrqSpec(rxm, data.value);
        rxm := R.Step(rxm, R.RxIrq(data.value));
        var ok := rx.Putch(data.value);
        CheckRxBufferUpper();
      }
    }

    /** xbee_ser_read. */
    method Read(bufsize: int) returns (ret: int, out: seq<Byte>)
      requires Valid()
      modifies Repr
      ensures Valid() && txm == old(txm) && baudrate == old(baudrate)
      ensures baudrate == 0 ==> ret == -EINVAL && rxm == old(rxm)
      ensures baudrate != 0 && bufsize < 0 ==> ret == -EIO && rxm == old(rxm)
      ensures baudrate != 0 && bufsize >= 0 ==>
        && rxm == ReadSteps(old(rxm), Min(bufsize, R.RX_BUFF_SIZE))
        && ret == |out| && rxm.delivered == old(rxm).delivered + out
        && ret == Min(Min(bufsize, R.RX_BUFF_SIZE), |old(ToRead())|)
        && out == old(ToRead())[..ret] && ToRead() == old(ToRead())[ret..]
        && rtsPin == (old(rtsPin) && !(flowControlEnabled && |ToRead()| <= R.BUFFER_LOWER_BOUND))
      ensures flowControlEnabled == old(flowControlEnabled)
    {
      out := [];
      if baudrate == 0 {
        return -EINVAL, out;
      }
      if bufsize < 0 {
        return -EIO, out;
      }
      out := ReadSome(Min(bufsize, R.RX_BUFF_SIZE));
      ret := |out|;
    }

    /** The part of a read after its argument checks. */
    method ReadSome(n: nat) returns (out: seq<Byte>)
      requires Valid()
      modifies Repr
      ensures Valid() && txm == old(txm) && baudrate == old(baudrate) && flowControlEnabled == old(flowControlEnabled)
      ensures rxm == ReadSteps(old(rxm), n) && rxm.delivered == old(rxm).delivered + out
      ensures |out| == Min(n, |old(ToRead())|)
      ensures out == old(ToRead())[..|out|] && ToRead() == old(ToRead())[|out|..]
      ensures rtsPin == (old(rtsPin) && !(flowControlEnabled && |ToRead()| <= R.BUFFER_LOWER_BOUND))
    {
      GetSpec(rx.View(), n);
      R.ReadSpec(rxm, n);
      ghost var steps := ReadSteps(rxm, n);
      out := rx.Get(n);
      rxm := steps;
      CheckLowerIfOn();
    }

    /** The last lines of both reading calls. */
    method CheckLowerIfOn()
      requires rx.Valid() && rx.mask == R.RX_BUFF_SIZE
      modifies this`rtsPin
      ensures rtsPin == (old(rtsPin) && !(flowControlEnabled && |ToRead()| <= R.BUFFER_LOWER_BOUND))
    {
      if flowControlEnabled {
        CheckRxBufferLower();
      }
    }

    static ghost function ReadSteps(s: R.Rx, n: nat): R.Rx
      requires s.Valid()
    {
      R.StepValid(s, R.ReadTake(n));
      R.Step(R.Step(s, R.ReadTake(n)), R.Check)
    }

    /** xbee_ser_getchar: it returns before its check when there is nothing to read. */
    method Getchar() returns (ret: int)
      requires Valid()
      modifies Repr
      ensures Valid() && txm == old(txm) && baudrate == old(baudrate)
      ensures baudrate == 0 ==> ret == -EINVAL && rxm == old(rxm)
      ensures baudrate != 0 && old(rx.View()).Getch().1 == None ==> ret == -ENODATA && rxm == old(rxm)
      ensures baudrate != 0 && old(rx.View()).Getch().1 != None ==>
        && old(rx.View()).Getch().1 == Some(ret)
        && rxm == GetcharSteps(old(rxm)) && rxm.delivered == old(rxm).delivered + [ret]
        && rtsPin == (old(rtsPin) && !(flowControlEnabled && |ToRead()| <= R.BUFFER_LOWER_BOUND))
      ensures baudrate != 0 && !old(StrayGetch(rx.View())) ==>
        if old(ToRead()) == [] then ret == -ENODATA && ToRead() == []
        else ret == old(ToRead())[0] && ToRead() == old(ToRead())[1..]
      ensures flowControlEnabled == old(flowControlEnabled)
    {
      if baudrate == 0 {
        return -EINVAL;
      }
      R.GetcharSpec(rxm);
      GetchMoves(rx.View());
      ghost var steps := GetcharSteps(rxm);
      var ch := rx.Getch();
      if ch == None {
        return -ENODATA;
      }
      rxm := steps;
      CheckLowerIfOn();
      ret := ch.value;
    }

    /** getch returns a byte exactly when it moves head. */
    static lemma GetchMoves(r: Ring)
      requires r.Valid()
      ensures r.Getch().1 == None <==> r.Getch().0 == r
      ensures !StrayGetch(r) ==> (r.Getch().1 == if r.Contents() == [] then None else Some(r.Contents()[0]))
    {
      GetchSpec(r);
    }

    static ghost function GetcharSteps(s: R.Rx): R.Rx
      requires s.Valid()
    {
      R.StepValid(s, R.GetcharTake);
      R.Step(R.Step(s, R.GetcharTake), R.Check)
    }

    /** xbee_ser_rx_flush. */
    method RxFlush() returns (ret: int)
      requires Valid()
      modifies Repr
      ensures Valid() && txm == old(txm) && baudrate == old(baudrate)
      ensures ret == (if baudrate == 0 then -EINVAL else 0)
      ensures rxm == if baudrate == 0 then old(rxm) else R.Step(old(rxm), R.RxFlush)
      ensures baudrate != 0 ==> ToRead() == [] && rtsPin == old(rtsPin) && flowControlEnabled == old(flowControlEnabled)
    {
      if baudrate == 0 {
        return -EINVAL;
      }
      R.StepValid(rxm, R.RxFlush);
      rxm := R.Step(rxm, R.RxFlush);
      rx.Flush();
      ret := 0;
    }

    /** xbee_ser_flowcontrol. */
    method Flowcontrol(enabled: bool) returns (ret: int)
      requires Valid()
      modifies Repr
      ensures Valid() && txm == old(txm) && baudrate == old(baudrate)
      ensures ret == (if baudrate == 0 then -EINVAL else 0)
      ensures rxm == if baudrate == 0 then old(rxm)
                     else R.Step(old(rxm), if enabled then R.FlowOn else R.FlowOff(true))
      ensures baudrate != 0 ==> flowControlEnabled == enabled && ToRead() == old(ToRead())
      ensures baudrate != 0 && !enabled ==> !rtsPin
      ensures baudrate != 0 && enabled ==>
        rtsPin == ((old(rtsPin) && |ToRead()| > R.BUFFER_LOWER_BOUND)
                   || R.RX_BUFF_SIZE - |ToRead()| <= R.BUFFER_UPPER_BOUND)
    {
      if baudrate == 0 {
        return -EINVAL;
      }
      R.StepValid(rxm, if enabled then R.FlowOn else R.FlowOff(true));
      rxm := R.Step(rxm, if enabled then R.FlowOn else R.FlowOff(true));
      flowControlEnabled := enabled;
      if enabled {
        CheckRxBufferLower();
        CheckRxBufferUpper();
      } else {
        rtsPin := false;
      }
      ret := 0;
    }

    /** xbee_ser_set_rts. */
    method SetRts(asserted: bool) returns (ret: int)
      requires Valid()
      modifies Repr
      ensures Valid() && txm == old(txm) && baudrate == old(baudrate)
      ensures ret == (if baudrate == 0 then -EINVAL else 0)
      ensures rxm == if baudrate == 0 then old(rxm) else R.Step(old(rxm), R.FlowOff(asserted))
      ensures baudrate != 0 ==> !flowControlEnabled && rtsPin == !asserted && ToRead() == old(ToRead())
    {
      ret := Flowcontrol(false);
      if ret == 0 {
        rtsPin := !asserted;
        rxm := R.Step(rxm, R.FlowOff(asserted));
      }
    }
  }
}
