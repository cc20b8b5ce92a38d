/** The PHY driver: receive and transmit interrupts, transceiver state, receive buffers and acknowledgments. */
module Radio {
  import opened Bits
  import opened Options
  import opened Clock
  import opened AckFrame
  import opened RadioState

  const ACK_TX_HDR_LEN: nat := 5
  const ACK_TIMEOUT_US: nat := 1000

  type GoodPhy = c: Checked | Sound(c.p, c.s) ghost witness Checked(Parser(fcf => 3, mode => 5), Fresh(1))

  /** A state together with the frame parser it answers by. */
  datatype Checked = Checked(p: GoodParser, s: Phy)

  /** After reset: buffer 0 under the DMA, all others free. */
  ghost function Fresh(buffers: nat): Phy
    requires buffers > 0
  {
    var zero: Buf := seq(RF_PKT_BUFF_LEN, i => 0);
    Phy(0, seq(buffers, i => if i == 0 then Dma else Free), seq(buffers, i => zero), true, true, TxMode, RfTx, false, Diag(0, 0, 0), [], [], 0)
  }

  /** The timing of one acknowledgment: switch to TX and readiness in true ticks, then the readings of the wait for TX done. */
  datatype Timing = Timing(switched: nat, ready: nat, poll: nat -> nat, done: nat -> bool)

  class Driver {
    const parser: GoodParser
    const turnArnd: nat
    const ticksPerUs: nat
    const ackBuf: array<byte>
    var rfRxBuf: nat
    var dmaTarget: nat
    var rxDmaOn: bool
    var irqMask: bool
    var mode: Mode
    var rfMode: RfState
    var txBusy: bool
    var mem: seq<Buf>
    var macRxIrqCnt: nat
    var macRxCrcFail: nat
    var queueLimitReached: nat
    ghost var air: seq<seq<byte>>
    ghost var st: GoodPhy

    constructor (p: GoodParser, buffers: nat, turnArnd: nat, ticksPerUs: nat)
      requires buffers > 0 && ticksPerUs > 0
      ensures Valid() && st.s == Fresh(buffers) && fresh(ackBuf)
    {
      parser, this.turnArnd, this.ticksPerUs := p, turnArnd, ticksPerUs;
      ackBuf := new byte[12](i => if i == 0 then 4 else if i == 4 then 5 else if i == 5 then 2 else 0);
      var zero: Buf := seq(RF_PKT_BUFF_LEN, i => 0);
      rfRxBuf, dmaTarget, rxDmaOn, irqMask, mode, rfMode, txBusy := 0, 0, true, true, TxMode, RfTx, false;
      mem := seq(buffers, i => zero);
      macRxIrqCnt, macRxCrcFail, queueLimitReached := 0, 0, 0;
      air := [];
      st := Checked(p, Fresh(buffers));
    }

    ghost predicate AckTemplate()
      reads ackBuf
    {
      ackBuf.Length == 12 && ackBuf[0] == 4 && ackBuf[4] == 5 && ackBuf[6] == 0
    }

    /** The hardware and driver variables are those of `s`. */
    ghost predicate Registers(s: Phy)
      reads this
    {
      && s.rxBuf == rfRxBuf == dmaTarget && s.mem == mem && s.rxOn == rxDmaOn && s.irqMask == irqMask
      && s.mode == mode && s.rfState == rfMode && s.txBusy == txBusy && s.air == air
    }

    ghost predicate Holds(s: Phy)
      reads this
    {
      Registers(s) && s.diag == Diag(macRxIrqCnt, macRxCrcFail, queueLimitReached)
    }

    /** In a receive interrupt of state `s`: receive DMA is off and the interrupt counted, but not its outcome. */
    ghost predicate Entered(s: Phy)
      reads this
    {
      && Registers(s.(rxOn := false)) && macRxIrqCnt == (s.diag.rxIrq + 1) % IRQ_CNT_WRAP
      && macRxCrcFail == s.diag.crcFail && queueLimitReached == s.diag.queueLimit
    }

    ghost predicate Valid()
      reads this, ackBuf
    {
      AckTemplate() && st.p == parser && Holds(st.s) && ticksPerUs > 0
    }

    /** Reuse the current buffer and let the DMA run again. */
    method Recycle()
      requires rfRxBuf < |mem|
      modifies this`mem, this`rxDmaOn
      ensures rxDmaOn && mem == old(mem)[rfRxBuf := Cleared(old(mem)[rfRxBuf])]
    {
      mem := mem[rfRxBuf := Cleared(mem[rfRxBuf])];
      rxDmaOn := true;
    }

    /**
     * The receive interrupt. The event's outcome and the new state are those of the value model,
     * wherever the path leaves: in particular receive DMA is on again and the interrupt mask set.
     */
    method RxIrqHandler(e: Env, time: Timing) returns (ghost ackAt: Option<nat>)
      requires Valid() && Fair(st.s, e)
      requires time.switched <= time.ready && Ticking(time.poll, WRAP - ACK_TIMEOUT_US * TICKS_PER_US)
      modifies this, ackBuf
      ensures Valid() && st.s == RxIrq(parser, old(st.s), e)
      ensures !e.dmaBusy ==> rxDmaOn && irqMask && dmaTarget == rfRxBuf && (old(mode) == RxMode ==> mode == RxMode)
      ensures ackAt.Some? <==> |air| > |old(air)|
      ensures ackAt.Some? ==> ackAt.value >= time.switched + turnArnd * ticksPerUs
      ensures e.dmaBusy ==> st == old(st)
      ensures !e.dmaBusy ==> DecidedRight(old(Shown()), Shown(), e) && DoneRight(old(Shown()), Shown(), e)
      ensures !e.dmaBusy ==> (st.s.owner[old(rfRxBuf)] == Handed <==> rfRxBuf != old(rfRxBuf))
    {
      ghost var s := st.s;
      ackAt := Serve(e, time);
      if !e.dmaBusy {
        InterruptDecides(parser, s, e);
        InterruptDoes(parser, s, e);
      }
    }

    /** The driver's variables, as they are. */
    ghost function Shown(): Front
      reads this
    {
      Front(rfRxBuf, mem, txBusy, mode, air, Diag(macRxIrqCnt, macRxCrcFail, queueLimitReached))
    }

    method Serve(e: Env, time: Timing) returns (ghost ackAt: Option<nat>)
      requires Valid() && Fair(st.s, e)
      requires time.switched <= time.ready && Ticking(time.poll, WRAP - ACK_TIMEOUT_US * TICKS_PER_US)
      modifies this, ackBuf
      ensures Valid() && st.s == RxIrq(parser, old(st.s), e)
      ensures e.dmaBusy ==> st == old(st)
      ensures ackAt.Some? <==> |air| > |old(air)|
      ensures ackAt.Some? ==> ackAt.value >= time.switched + turnArnd * ticksPerUs
    {
      ghost var s := st.s;
      RxIrqSound(parser, s, e);
      ackAt := None;
      if e.dmaBusy {
        return;
      }
      rxDmaOn := false;
      macRxIrqCnt := (macRxIrqCnt + 1) % IRQ_CNT_WRAP;
      ackAt := Handle(e, time, s);
      st := Checked(parser, RxIrq(parser, s, e));
    }

    /** The interrupt from the check of the received packet on. */
    method Handle(e: Env, time: Timing, ghost s: Phy) returns (ghost ackAt: Option<nat>)
      requires AckTemplate() && ticksPerUs > 0 && Sound(parser, s) && Fair(s, e) && !e.dmaBusy && Entered(s)
      requires time.switched <= time.ready && Ticking(time.poll, WRAP - ACK_TIMEOUT_US * TICKS_PER_US)
      modifies this`rfRxBuf, this`dmaTarget, this`rxDmaOn, this`irqMask, this`mode, this`mem, this`air, ackBuf
      modifies this`macRxCrcFail, this`queueLimitReached
      ensures AckTemplate() && Holds(RxIrq(parser, s, e))
      ensures ackAt.Some? <==> |air| > |old(air)|
      ensures ackAt.Some? ==> ackAt.value >= time.switched + turnArnd * ticksPerUs
    {
      ackAt := None;
      var b := mem[rfRxBuf];
      if !CrcOk(b) || !LengthOk(b) || txBusy {
        RejectBad(s);
      } else if e.drop {
        Recycle();
      } else {
        var macPld := MacPld(b);
        if AckRequested(macPld) {
          mode := TxMode;
        }
        if e.offer == None {
          RejectNoBuffer(macPld, s);
        } else {
          ackAt := Accept(macPld, e.offer.value, e.hasPending, time, s);
        }
      }
    }

    method RejectBad(ghost s: Phy)
      requires Entered(s) && OwnsOne(s)
      modifies this`mem, this`rxDmaOn, this`macRxCrcFail
      ensures Holds(Recycled(s, Bad))
    {
      macRxCrcFail := (macRxCrcFail + 1) % CRC_FAIL_WRAP;
      Recycle();
    }

    /** No buffer to take over: give up the frame, and the transmit mode entered early for it. */
    method RejectNoBuffer(macPld: Payload, ghost s: Phy)
      requires OwnsOne(s) && macPld == MacPld(s.mem[s.rxBuf])
      requires Entered(if AckRequested(macPld) then s.(mode := TxMode) else s)
      modifies this`mem, this`rxDmaOn, this`mode, this`queueLimitReached
      ensures Holds(Recycled(s, NoBuffer).(mode := if AckRequested(macPld) then RxMode else s.mode))
    {
      if AckRequested(macPld) {
        mode := RxMode;
      }
      queueLimitReached := (queueLimitReached + 1) % QUEUE_LIMIT_WRAP;
      Recycle();
    }

    /** Put the next buffer under the DMA, acknowledge, and hand the frame up. */
    method Accept(macPld: Payload, next: nat, hasPending: bool, time: Timing, ghost s: Phy) returns (ghost ackAt: Option<nat>)
      requires AckTemplate() && ticksPerUs > 0 && Sound(parser, s) && next < |s.mem| && s.owner[next] == Free
      requires macPld == MacPld(s.mem[s.rxBuf])
      requires Entered(if AckRequested(macPld) then s.(mode := TxMode) else s)
      requires time.switched <= time.ready && Ticking(time.poll, WRAP - ACK_TIMEOUT_US * TICKS_PER_US)
      modifies this`rfRxBuf, this`dmaTarget, this`rxDmaOn, this`irqMask, this`mode, this`mem, this`air, ackBuf
      ensures AckTemplate() && Holds(HandedUp(parser, s, Delivered(s.mem[s.rxBuf], hasPending), next))
      ensures ackAt.Some? <==> |air| > |old(air)|
      ensures ackAt.Some? ==> ackAt.value >= time.switched + turnArnd * ticksPerUs
    {
      ackAt := None;
      SetRxBuf(next);
      if AckRequested(macPld) {
        ghost var start := SendAck(macPld, hasPending, time);
        ackAt := Some(start);
      }
      rxDmaOn := true;
    }

    method SetRxBuf(next: nat)
      requires next < |mem|
      modifies this`rfRxBuf, this`dmaTarget, this`mem
      ensures rfRxBuf == dmaTarget == next && mem == old(mem)[next := Cleared(old(mem)[next])]
    {
      rfRxBuf := next;
      mem := mem[rfRxBuf := Cleared(mem[rfRxBuf])];
      dmaTarget := rfRxBuf;
    }

    /** Overwrite the variable bytes of the acknowledgment; nothing of an earlier one is left in what goes on air. */
    method FillAck(macPld: Payload, hasPending: bool)
      requires AckTemplate()
      modifies ackBuf
      ensures AckTemplate() && ackBuf[4..8] == AckFor(parser, macPld, hasPending)
    {
      ackBuf[ACK_TX_HDR_LEN + 2] := macPld[2];
      ackBuf[ACK_TX_HDR_LEN] := 0x02;
      var pldOft := parser.hdr(FrameControl(macPld));
      if Secured(macPld) {
        var keyIdMode := KeyIdMode(macPld[pldOft]);
        pldOft := pldOft + parser.aux(keyIdMode);
      }
      var cmdDataReq := FrameType(macPld) == MAC_FRAME_COMMAND && macPld[pldOft] == MAC_CMD_DATA_REQUEST;
      if cmdDataReq && HasSource(macPld) && hasPending {
        ackBuf[ACK_TX_HDR_LEN] := 0x12;
      }
    }

    /** The acknowledgment in the air, not before the turnaround time; then the radio is back in receive mode. */
    method SendAck(macPld: Payload, hasPending: bool, time: Timing) returns (ghost start: nat)
      requires AckTemplate() && mode == TxMode && ticksPerUs > 0
      requires time.switched <= time.ready && Ticking(time.poll, WRAP - ACK_TIMEOUT_US * TICKS_PER_US)
      modifies this`air, this`mode, this`irqMask, ackBuf
      ensures AckTemplate() && mode == RxMode && irqMask
      ensures air == old(air) + [AckFor(parser, macPld, hasPending)]
      ensures start >= time.switched + turnArnd * ticksPerUs
      ensures time.ready - time.switched < WRAP ==> start == time.ready || start < time.switched + (turnArnd + 1) * ticksPerUs
    {
      FillAck(macPld, hasPending);
      var wait := TurnaroundWait(ClockTime(time.ready), ClockTime(time.switched), turnArnd, ticksPerUs);
      TurnaroundKept(time.switched, time.ready, turnArnd, ticksPerUs);
      start := time.ready + wait * ticksPerUs;
      irqMask := false;
      Transmit();
      var polls := AwaitTxDone(time);
      irqMask := true;
      mode := RxMode;
    }

    /** The hardware sends the bytes after the DMA header, as many as it says. It must be in TX mode with its interrupt masked. */
    method Transmit()
      requires AckTemplate() && mode == TxMode && !irqMask
      modifies this`air
      ensures air == old(air) + [ackBuf[4..8]]
    {
      air := air + [ackBuf[4..4 + ackBuf[0]]];
    }

    /** Wait for TX done, but no longer than a millisecond. */
    method AwaitTxDone(time: Timing) returns (polls: nat)
      requires Ticking(time.poll, WRAP - ACK_TIMEOUT_US * TICKS_PER_US)
      ensures 1 <= polls <= ACK_TIMEOUT_US * TICKS_PER_US + 1
      ensures time.done(polls) || time.poll(polls) - time.poll(0) > 1000 * 16
      ensures forall k :: 1 <= k < polls ==> !time.done(k) && time.poll(k) - time.poll(0) <= 1000 * 16
    {
      polls := 1;
      PollIsExact(time.poll, ACK_TIMEOUT_US, 1);
      while !time.done(polls) && !ClockTimeExceed(ClockTime(time.poll(polls)), ClockTime(time.poll(0)), ACK_TIMEOUT_US)
        invariant 1 <= polls <= ACK_TIMEOUT_US * TICKS_PER_US + 1
        invariant AllWithin(time.poll, ACK_TIMEOUT_US, polls - 1)
        invariant forall k :: 1 <= k < polls ==> !time.done(k)
        decreases ACK_TIMEOUT_US * TICKS_PER_US + 1 - polls
      {
        PollIsExact(time.poll, ACK_TIMEOUT_US, polls);
        polls := polls + 1;
      }
      PollIsExact(time.poll, ACK_TIMEOUT_US, polls);
    }

    /** Hardware: the DMA writes a packet to its target. */
    method DmaReceive(packet: seq<byte>)
      requires Valid() && Enabled(st.s, Arrive(packet))
      modifies this`mem, this`st
      ensures Valid() && st.s == Step(parser, old(st.s), Arrive(packet))
      ensures mem == old(mem)[dmaTarget := packet + old(mem)[dmaTarget][|packet|..]]
    {
      StepSound(parser, st.s, Arrive(packet));
      mem := mem[dmaTarget := Landed(mem[dmaTarget], packet)];
      st := Checked(parser, Step(parser, st.s, Arrive(packet)));
    }

    /** The MAC is done with a buffer it was given. */
    method ReleaseBuf(buf: nat)
      requires Valid() && Enabled(st.s, Release(buf))
      modifies this`st
      ensures Valid() && st.s == Step(parser, old(st.s), Release(buf))
      ensures st.s.owner == old(st.s.owner)[buf := Free]
    {
      StepSound(parser, st.s, Release(buf));
      st := Checked(parser, Step(parser, st.s, Release(buf)));
    }

    /** rf802154_tx, with the busy flag its caller keeps while a frame is being sent. */
    method StartTx()
      requires Valid()
      modifies this`mode, this`rfMode, this`txBusy, this`st
      ensures Valid() && st.s == Step(parser, old(st.s), TxStart)
      ensures txBusy && mode == TxMode && rfMode == RfTx
    {
      StepSound(parser, st.s, TxStart);
      mode, rfMode, txBusy := TxMode, RfTx, true;
      st := Checked(parser, Step(parser, st.s, TxStart));
    }

    method TxIrqHandler()
      requires Valid()
      modifies this`txBusy, this`mode, this`rfMode, this`st
      ensures Valid() && st.s == Step(parser, old(st.s), TxIrq)
      ensures !txBusy && mode == RxMode && rfMode == RfRx
    {
      StepSound(parser, st.s, TxIrq);
      txBusy := false;
      rfMode := RfRx;
      mode := RxMode;
      st := Checked(parser, Step(parser, st.s, TxIrq));
    }

    method SetTrxState(state: RfState)
      requires Valid()
      modifies this`mode, this`rfMode, this`st
      ensures Valid() && st.s == Step(parser, old(st.s), SetState(state))
      ensures rfMode == state && mode == match state case RfRx => RxMode case RfTx => TxMode case RfOff => OffMode
    {
      StepSound(parser, st.s, SetState(state));
      if state == RfRx {
        mode := RxMode;
        rfMode := RfRx;
      } else if state == RfTx {
        mode := TxMode;
        rfMode := RfTx;
      } else {
        mode := OffMode;
        rfMode := RfOff;
      }
      st := Checked(parser, Step(parser, st.s, SetState(state)));
    }
  }
}
