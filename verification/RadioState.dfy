/** The radio's receive side as values: buffer ownership, outcomes of receive interrupts, and acknowledgments over whole runs. */
module RadioState {
  import opened Bits
  import opened Options
  import opened AckFrame

  const RF_PKT_BUFF_LEN: nat := 144
  const RX_HDR_LEN: nat := 5

  datatype Mode = RxMode | TxMode | OffMode
  datatype RfState = RfTx | RfRx | RfOff

  /** A receive buffer is free, the DMA target, or with the MAC. */
  datatype Owner = Free | Dma | Handed

  /** A packet buffer: byte 0 holds the DMA length, byte 4 the frame length. The hardware status byte lies inside the buffer. */
  type Buf = b: seq<byte> | |b| == RF_PKT_BUFF_LEN && b[0] <= 140 witness seq(RF_PKT_BUFF_LEN, i => 0)

  function Cleared(b: Buf): Buf {
    b[0 := 0][4 := 0]
  }

  predicate LengthOk(b: Buf) {
    b[0] as int == b[4] as int + 9
  }

  predicate CrcOk(b: Buf) {
    And(b[b[0] + 3], 0x51) == 0x10
  }

  function MacPld(b: Buf): Payload {
    b[RX_HDR_LEN..]
  }

  /** The hardware writes a packet over the start of a buffer. */
  function Landed(b: Buf, packet: seq<byte>): (r: Buf)
    requires 1 <= |packet| <= RF_PKT_BUFF_LEN && packet[0] <= 140
    ensures r[..|packet|] == packet
  {
    packet + b[|packet|..]
  }

  datatype Outcome = Bad | Filtered | NoBuffer | Delivered(data: Buf, hasPending: bool)

  /**
   * `owner` and `mem` are indexed by buffer. `log` has an outcome for every receive interrupt that
   * found the DMA idle, `air` every acknowledgment sent, `arrivals` counts packets written by the hardware.
   */
  datatype Phy = Phy(rxBuf: nat, owner: seq<Owner>, mem: seq<Buf>, rxOn: bool, irqMask: bool, mode: Mode, rfState: RfState,
                     txBusy: bool, diag: Diag, log: seq<Outcome>, air: seq<seq<byte>>, arrivals: nat)

  /** The diagnostics counters: 8, 32 and 16 bits wide. */
  datatype Diag = Diag(rxIrq: nat, crcFail: nat, queueLimit: nat)

  const IRQ_CNT_WRAP: nat := 0x100
  const CRC_FAIL_WRAP: nat := 0x1_0000_0000
  const QUEUE_LIMIT_WRAP: nat := 0x1_0000

  /** One more interrupt, with outcome `o`. */
  function Counted(d: Diag, o: Outcome): Diag {
    Diag((d.rxIrq + 1) % IRQ_CNT_WRAP,
         if o == Bad then (d.crcFail + 1) % CRC_FAIL_WRAP else d.crcFail,
         if o == NoBuffer then (d.queueLimit + 1) % QUEUE_LIMIT_WRAP else d.queueLimit)
  }

  /** The counters are the tallies of the outcomes, modulo their widths. */
  ghost predicate Counts(d: Diag, log: seq<Outcome>) {
    && d.rxIrq == |log| % IRQ_CNT_WRAP
    && d.crcFail == Tally(log, KBad) % CRC_FAIL_WRAP
    && d.queueLimit == Tally(log, KNoBuffer) % QUEUE_LIMIT_WRAP
  }

  lemma CountedCounts(d: Diag, log: seq<Outcome>, o: Outcome)
    requires Counts(d, log)
    ensures Counts(Counted(d, o), log + [o])
  {
    TallyOneMore(log, o);
    Wrapping(|log|, Tally(log, KBad), Tally(log, KNoBuffer));
  }

  lemma TallyOneMore(log: seq<Outcome>, o: Outcome)
    ensures forall k :: Tally(log + [o], k) == Tally(log, k) + if KindOf(o) == k then 1 else 0
  {
    assert (log + [o])[..|log|] == log;
  }

  /** A wrapping counter keeps step with an unbounded one. */
  lemma Wrapping(a: nat, b: nat, c: nat)
    ensures (a % IRQ_CNT_WRAP + 1) % IRQ_CNT_WRAP == (a + 1) % IRQ_CNT_WRAP
    ensures (b % CRC_FAIL_WRAP + 1) % CRC_FAIL_WRAP == (b + 1) % CRC_FAIL_WRAP
    ensures (c % QUEUE_LIMIT_WRAP + 1) % QUEUE_LIMIT_WRAP == (c + 1) % QUEUE_LIMIT_WRAP
  {
  }

  /** What the rest of the system answers during a receive interrupt; `offer` is the buffer allocator's. */
  datatype Env = Env(dmaBusy: bool, drop: bool, offer: Option<nat>, hasPending: bool)

  // ---------------------------------------------------------------- the invariant

  function Count(owner: seq<Owner>, o: Owner): nat {
    if owner == [] then 0 else (if owner[0] == o then 1 else 0) + Count(owner[1..], o)
  }

  datatype Kind = KBad | KFiltered | KNoBuffer | KDelivered

  function KindOf(o: Outcome): Kind {
    match o case Bad => KBad case Filtered => KFiltered case NoBuffer => KNoBuffer case Delivered(_, _) => KDelivered
  }

  function Tally(log: seq<Outcome>, k: Kind): (n: nat)
    ensures n <= |log|
  {
    if log == [] then 0 else Tally(log[..|log| - 1], k) + if KindOf(log[|log| - 1]) == k then 1 else 0
  }

  /** The acknowledgments owed: one for each delivered frame that asks for it, in order. */
  function Owed(p: GoodParser, log: seq<Outcome>): seq<seq<byte>> {
    if log == [] then [] else
      var past := Owed(p, log[..|log| - 1]);
      match log[|log| - 1]
      case Delivered(data, hasPending) =>
        if AckRequested(MacPld(data)) then past + [AckFor(p, MacPld(data), hasPending)] else past
      case _ => past
  }

  ghost predicate OwnsOne(s: Phy) {
    && |s.owner| == |s.mem| && s.rxBuf < |s.owner|
    && (forall i :: 0 <= i < |s.owner| ==> (s.owner[i] == Dma <==> i == s.rxBuf))
  }

  /** A packet waits in the DMA buffer, as far as its length bytes tell. */
  function Waiting(s: Phy): nat
    requires s.rxBuf < |s.mem|
  {
    if LengthOk(s.mem[s.rxBuf]) then 1 else 0
  }

  ghost predicate Sound(p: GoodParser, s: Phy) {
    && OwnsOne(s) && s.rxOn && s.irqMask
    && (s.rfState == RfRx ==> s.mode == RxMode)
    && Tally(s.log, KDelivered) + Waiting(s) <= s.arrivals
    && s.air == Owed(p, s.log)
    && Counts(s.diag, s.log)
  }

  // ---------------------------------------------------------------- a receive interrupt

  function OutcomeOf(s: Phy, e: Env): Outcome
    requires s.rxBuf < |s.mem|
  {
    var b := s.mem[s.rxBuf];
    if !CrcOk(b) || !LengthOk(b) || s.txBusy then Bad
    else if e.drop then Filtered
    else if e.offer == None then NoBuffer
    else Delivered(b, e.hasPending)
  }

  /** The allocator offers only free buffers. */
  ghost predicate Fair(s: Phy, e: Env) {
    e.offer.Some? ==> e.offer.value < |s.owner| && s.owner[e.offer.value] == Free
  }

  function Recycled(s: Phy, o: Outcome): Phy
    requires s.rxBuf < |s.mem|
  {
    s.(mem := s.mem[s.rxBuf := Cleared(s.mem[s.rxBuf])], rxOn := true, log := s.log + [o], diag := Counted(s.diag, o))
  }

  /** The full buffer goes up and the offered one takes its place. */
  function HandedUp(p: GoodParser, s: Phy, o: Outcome, next: nat): Phy
    requires s.rxBuf < |s.owner| == |s.mem| && next < |s.mem| && o.Delivered?
  {
    var m := MacPld(o.data);
    s.(rxBuf := next, owner := s.owner[s.rxBuf := Handed][next := Dma], mem := s.mem[next := Cleared(s.mem[next])], rxOn := true,
       log := s.log + [o], diag := Counted(s.diag, o), air := if AckRequested(m) then s.air + [AckFor(p, m, o.hasPending)] else s.air,
       mode := if AckRequested(m) then RxMode else s.mode)
  }

  ghost function RxIrq(p: GoodParser, s: Phy, e: Env): Phy
    requires OwnsOne(s) && Fair(s, e)
  {
    if e.dmaBusy then s else
      match OutcomeOf(s, e)
      case Bad => Recycled(s, Bad)
      case Filtered => Recycled(s, Filtered)
      case NoBuffer =>
        var mode := if AckRequested(MacPld(s.mem[s.rxBuf])) then RxMode else s.mode;
        Recycled(s, NoBuffer).(mode := mode)
      case Delivered(data, hasPending) => HandedUp(p, s, Delivered(data, hasPending), e.offer.value)
  }

  lemma LogOneMore(p: GoodParser, log: seq<Outcome>, o: Outcome)
    ensures !o.Delivered? ==> Owed(p, log + [o]) == Owed(p, log)
    ensures o.Delivered? && AckRequested(MacPld(o.data)) ==> Owed(p, log + [o]) == Owed(p, log) + [AckFor(p, MacPld(o.data), o.hasPending)]
    ensures o.Delivered? && !AckRequested(MacPld(o.data)) ==> Owed(p, log + [o]) == Owed(p, log)
  {
    assert (log + [o])[..|log|] == log;
  }

  lemma RecycledSound(p: GoodParser, s: Phy, o: Outcome)
    requires Sound(p, s) && !o.Delivered?
    ensures Sound(p, Recycled(s, o))
  {
    LogOneMore(p, s.log, o);
    TallyOneMore(s.log, o);
    CountedCounts(s.diag, s.log, o);
  }

  lemma HandedUpSound(p: GoodParser, s: Phy, o: Outcome, next: nat)
    requires Sound(p, s) && o.Delivered? && LengthOk(s.mem[s.rxBuf]) && next < |s.owner| && s.owner[next] == Free
    ensures Sound(p, HandedUp(p, s, o, next))
  {
    LogOneMore(p, s.log, o);
    TallyOneMore(s.log, o);
    CountedCounts(s.diag, s.log, o);
  }

  lemma RxIrqSound(p: GoodParser, s: Phy, e: Env)
    requires Sound(p, s) && Fair(s, e)
    ensures Sound(p, RxIrq(p, s, e))
  {
    if !e.dmaBusy {
      var o := OutcomeOf(s, e);
      if o.Delivered? {
        HandedUpSound(p, s, o, e.offer.value);
      } else {
        RecycledSound(p, s, o);
      }
    }
  }

  /** AND with 0x51 in arithmetic. */
  lemma AndStatusMask(x: byte)
    ensures And(x, 0x51) == x % 2 + 16 * (x / 16 % 2) + 64 * (x / 64 % 2)
  {
    AndMiddleMask(x / 2);
    assert x / 2 / 8 == x / 16 && x / 2 / 32 == x / 64;
    assert AndBits(x, 81, 8) == x % 2 + 2 * AndBits(x / 2, 40, 7);
  }

  lemma AndMiddleMask(y: nat)
    ensures AndBits(y, 40, 7) == 8 * (y / 8 % 2) + 32 * (y / 32 % 2)
  {
    AndHighMask(y / 8);
    assert AndBits(y / 4, 10, 5) == 2 * AndBits(y / 8, 5, 4);
    assert AndBits(y / 2, 20, 6) == 2 * AndBits(y / 4, 10, 5);
    assert AndBits(y, 40, 7) == 2 * AndBits(y / 2, 20, 6);
  }

  lemma AndHighMask(y: nat)
    ensures AndBits(y, 5, 4) == y % 2 + 4 * (y / 4 % 2)
  {
    assert AndBits(y / 4, 1, 2) == y / 4 % 2 + 2 * AndBits(y / 8, 0, 1) && AndBits(y / 8, 0, 1) == 0;
    assert AndBits(y / 2, 2, 3) == 2 * AndBits(y / 4, 1, 2);
    assert AndBits(y, 5, 4) == y % 2 + 2 * AndBits(y / 2, 2, 3);
  }

  /** The status is good when its bits 0 and 6 are clear and bit 4 is set. */
  lemma StatusBits(x: byte)
    ensures And(x, 0x51) == 0x10 <==> x % 2 == 0 && x / 16 % 2 == 1 && x / 64 % 2 == 0
  {
    AndStatusMask(x);
  }

  /**
   * The packet goes up exactly when no transmission is under way, the two length bytes agree, the status byte is
   * good, the filter lets it pass and a buffer is offered; the first three alone decide what counts as an error.
   */
  lemma OutcomeRule(s: Phy, e: Env)
    requires s.rxBuf < |s.mem|
    ensures var b := s.mem[s.rxBuf];
            var status := b[b[0] as int + 3];
            var good := !s.txBusy && b[0] as int == b[4] as int + 9 && status % 2 == 0 && status / 16 % 2 == 1 && status / 64 % 2 == 0;
            && (OutcomeOf(s, e) == Bad <==> !good)
            && (OutcomeOf(s, e) == Filtered <==> good && e.drop)
            && (OutcomeOf(s, e) == NoBuffer <==> good && !e.drop && e.offer == None)
            && (OutcomeOf(s, e) == Delivered(b, e.hasPending) <==> good && !e.drop && e.offer.Some?)
  {
    var b := s.mem[s.rxBuf];
    StatusBits(b[b[0] + 3]);
  }

  /** What the driver's variables and the radio show of a state. */
  datatype Front = Front(rxBuf: nat, mem: seq<Buf>, txBusy: bool, mode: Mode, air: seq<seq<byte>>, diag: Diag)

  function FrontOf(s: Phy): Front {
    Front(s.rxBuf, s.mem, s.txBusy, s.mode, s.air, s.diag)
  }

  /**
   * An interrupt's decision, on the bytes of the DMA buffer. A packet is good when no transmission is under way, its
   * two length bytes agree, and bits 0, 4 and 6 of its status byte are 0, 1 and 0; it is taken when moreover the
   * filter lets it pass and a buffer is offered. The three counters count accordingly.
   */
  ghost predicate DecidedRight(a: Front, b: Front, e: Env)
    requires a.rxBuf < |a.mem|
  {
    var d := a.mem[a.rxBuf];
    var status := d[d[0] as int + 3];
    var good := !a.txBusy && d[0] as int == d[4] as int + 9 && status % 2 == 0 && status / 16 % 2 == 1 && status / 64 % 2 == 0;
    && b.rxBuf == (if good && !e.drop && e.offer.Some? then e.offer.value else a.rxBuf)
    && b.diag.rxIrq == (a.diag.rxIrq + 1) % 0x100
    && b.diag.crcFail == (if good then a.diag.crcFail else (a.diag.crcFail + 1) % 0x1_0000_0000)
    && b.diag.queueLimit == (if good && !e.drop && e.offer == None then (a.diag.queueLimit + 1) % 0x1_0000 else a.diag.queueLimit)
  }

  /**
   * What it then does: the buffer under the DMA has its two length bytes cleared and nothing else is written; a
   * frame that asks for it (bit 5 of its first byte) brings the radio to RX, and is acknowledged if its buffer was taken
   * over, with its sequence number.
   */
  ghost predicate DoneRight(a: Front, b: Front, e: Env)
    requires a.rxBuf < |a.mem| && b.rxBuf < |a.mem|
  {
    var d := a.mem[a.rxBuf];
    var taken, wanted := b.rxBuf != a.rxBuf, d[5] / 32 % 2 == 1;
    && b.mem == a.mem[b.rxBuf := a.mem[b.rxBuf][0 := 0][4 := 0]]
    && b.mode == (if wanted && (taken || b.diag.queueLimit != a.diag.queueLimit) then RxMode else a.mode)
    && (taken && wanted ==> b.air == a.air + [[5, 0x02, 0, d[7]]] || (e.hasPending && b.air == a.air + [[5, 0x12, 0, d[7]]]))
    && (!(taken && wanted) ==> b.air == a.air)
    && b.txBusy == a.txBusy
  }

  lemma InterruptDecides(p: GoodParser, s: Phy, e: Env)
    requires Sound(p, s) && Fair(s, e) && !e.dmaBusy
    ensures DecidedRight(FrontOf(s), FrontOf(RxIrq(p, s, e)), e)
    ensures RxIrq(p, s, e).rxBuf != s.rxBuf <==> RxIrq(p, s, e).owner[s.rxBuf] == Handed
  {
    OutcomeRule(s, e);
  }

  lemma InterruptDoes(p: GoodParser, s: Phy, e: Env)
    requires Sound(p, s) && Fair(s, e) && !e.dmaBusy
    ensures DoneRight(FrontOf(s), FrontOf(RxIrq(p, s, e)), e)
  {
    var b := s.mem[s.rxBuf];
    assert MacPld(b)[0] == b[5] && MacPld(b)[2] == b[7];
    var pending := PendingBit(p, MacPld(b), e.hasPending);
    assert AckFor(p, MacPld(b), e.hasPending) == [5, if pending then 0x12 else 0x02, 0, b[7]];
    Wraps(s.diag.queueLimit);
  }

  lemma Wraps(n: nat)
    ensures n < 0x1_0000 ==> (n + 1) % 0x1_0000 != n
  {
  }

  /** No packet is delivered twice: after a handled interrupt another one without a new arrival delivers nothing. */
  lemma NeverTwice(p: GoodParser, s: Phy, e: Env, e': Env)
    requires Sound(p, s) && Fair(s, e) && !e.dmaBusy
    ensures OutcomeOf(RxIrq(p, s, e), e') == Bad
  {
    var r := RxIrq(p, s, e);
    RxIrqSound(p, s, e);
    assert r.mem[r.rxBuf][0] == 0 && r.mem[r.rxBuf][4] == 0;
  }

  /**
   * The driver's state says RX exactly when the hardware is in RX mode. An interrupt keeps
   * that agreement, except when it answers or gives up on a frame wanting an acknowledgment
   * while the driver is not in its RX state: then the hardware is left in RX all the same.
   */
  lemma AgreementKept(p: GoodParser, s: Phy, e: Env)
    requires Sound(p, s) && Fair(s, e) && (s.rfState == RfRx <==> s.mode == RxMode)
    ensures var r := RxIrq(p, s, e);
            var answered := AckRequested(MacPld(s.mem[s.rxBuf])) && OutcomeOf(s, e) != Bad && OutcomeOf(s, e) != Filtered;
            (r.rfState == RfRx <==> r.mode == RxMode) <==> e.dmaBusy || s.rfState == RfRx || !answered
  {
  }

  // ---------------------------------------------------------------- runs

  datatype Event =
    | Arrive(packet: seq<byte>) | Irq(env: Env) | Release(buf: nat) | TxStart | TxIrq | SetState(state: RfState)

  ghost predicate Enabled(s: Phy, ev: Event) {
    match ev
    case Arrive(packet) => s.rxOn && 1 <= |packet| <= RF_PKT_BUFF_LEN && packet[0] <= 140
    case Irq(e) => Fair(s, e)
    case Release(b) => b < |s.owner| && s.owner[b] == Handed
    case TxStart => true
    case TxIrq => true
    case SetState(_) => true
  }

  ghost function Step(p: GoodParser, s: Phy, ev: Event): Phy
    requires OwnsOne(s) && Enabled(s, ev)
  {
    match ev
    case Arrive(packet) => s.(mem := s.mem[s.rxBuf := Landed(s.mem[s.rxBuf], packet)], arrivals := s.arrivals + 1)
    case Irq(e) => RxIrq(p, s, e)
    case Release(b) => s.(owner := s.owner[b := Free])
    case TxStart => s.(mode := TxMode, rfState := RfTx, txBusy := true)
    case TxIrq => s.(mode := RxMode, rfState := RfRx, txBusy := false)
    case SetState(state) => s.(mode := ModeOf(state), rfState := state)
  }

  /** The hardware mode each driver state asks for. */
  function ModeOf(state: RfState): Mode {
    match state case RfTx => TxMode case RfRx => RxMode case RfOff => OffMode
  }

  lemma StepSound(p: GoodParser, s: Phy, ev: Event)
    requires Sound(p, s) && Enabled(s, ev)
    ensures Sound(p, Step(p, s, ev)) && |Step(p, s, ev).owner| == |s.owner|
  {
    if ev.Irq? {
      RxIrqSound(p, s, ev.env);
    }
  }

  /** A run: every event is possible in the state it meets, and `t` is the state at the end. */
  ghost predicate Run(p: GoodParser, s: Phy, es: seq<Event>, t: Phy)
    decreases |es|
  {
    if es == [] then s == t else
      OwnsOne(s) && Enabled(s, es[0]) && Run(p, Step(p, s, es[0]), es[1..], t)
  }

  lemma {:induction false} RunSound(p: GoodParser, s: Phy, es: seq<Event>, t: Phy)
    requires Sound(p, s) && Run(p, s, es, t)
    ensures Sound(p, t) && |t.owner| == |s.owner|
    decreases |es|
  {
    if es != [] {
      StepSound(p, s, es[0]);
      RunSound(p, Step(p, s, es[0]), es[1..], t);
    }
  }

  lemma {:induction false} CountAll(owner: seq<Owner>)
    ensures Count(owner, Free) + Count(owner, Dma) + Count(owner, Handed) == |owner|
  {
    if owner != [] {
      CountAll(owner[1..]);
    }
  }

  lemma {:induction false} CountAt(owner: seq<Owner>, o: Owner, at: nat)
    requires at < |owner| && forall i :: 0 <= i < |owner| ==> (owner[i] == o <==> i == at)
    ensures Count(owner, o) == 1
  {
    if at == 0 {
      CountNone(owner[1..], o);
    } else {
      CountAt(owner[1..], o, at - 1);
    }
  }

  lemma {:induction false} CountNone(owner: seq<Owner>, o: Owner)
    requires forall i :: 0 <= i < |owner| ==> owner[i] != o
    ensures Count(owner, o) == 0
  {
    if owner != [] {
      CountNone(owner[1..], o);
    }
  }

  /** The buffers the MAC has after a run, by what was delivered to it and what it released. */
  ghost function WithMac(p: GoodParser, s: Phy, es: seq<Event>, had: set<nat>): set<nat>
    decreases |es|
  {
    if es == [] || !OwnsOne(s) || !Enabled(s, es[0]) then had
    else
      var now := match es[0]
                 case Irq(e) => if !e.dmaBusy && OutcomeOf(s, e).Delivered? then had + {s.rxBuf} else had
                 case Release(b) => had - {b}
                 case _ => had;
      WithMac(p, Step(p, s, es[0]), es[1..], now)
  }

  ghost predicate HandedAre(s: Phy, had: set<nat>) {
    forall b: nat :: b in had <==> b < |s.owner| && s.owner[b] == Handed
  }

  lemma {:induction false} HandedTracked(p: GoodParser, s: Phy, es: seq<Event>, t: Phy, had: set<nat>)
    requires Sound(p, s) && Run(p, s, es, t) && HandedAre(s, had)
    ensures HandedAre(t, WithMac(p, s, es, had))
    decreases |es|
  {
    if es != [] {
      StepSound(p, s, es[0]);
      var now := match es[0]
                 case Irq(e) => if !e.dmaBusy && OutcomeOf(s, e).Delivered? then had + {s.rxBuf} else had
                 case Release(b) => had - {b}
                 case _ => had;
      assert HandedAre(Step(p, s, es[0]), now);
      HandedTracked(p, Step(p, s, es[0]), es[1..], t, now);
    }
  }

  lemma {:induction false} CountSet(owner: seq<Owner>, o: Owner, own: set<nat>)
    requires forall b: nat :: b in own <==> b < |owner| && owner[b] == o
    ensures Count(owner, o) == |own|
    decreases |owner|
  {
    if owner == [] {
      assert own == {};
    } else {
      var n := |owner| - 1;
      CountLast(owner, o);
      CountSet(owner[..n], o, own - {n});
      assert owner[n] == o ==> own == (own - {n}) + {n};
      assert owner[n] != o ==> own == own - {n};
    }
  }

  lemma {:induction false} CountLast(owner: seq<Owner>, o: Owner)
    requires owner != []
    ensures Count(owner, o) == Count(owner[..|owner| - 1], o) + if owner[|owner| - 1] == o then 1 else 0
  {
    if |owner| > 1 {
      CountLast(owner[1..], o);
      assert owner[1..][..|owner| - 2] == owner[..|owner| - 1][1..];
    }
  }

  /**
   * After any run that starts with nothing handed up, the buffers delivered and not yet released, the free
   * ones and the one under the DMA make up all buffers, and the DMA never writes to one of the first.
   */
  lemma BuffersConserved(p: GoodParser, s: Phy, es: seq<Event>, t: Phy)
    requires Sound(p, s) && Run(p, s, es, t) && HandedAre(s, {})
    ensures |WithMac(p, s, es, {})| + Count(t.owner, Free) + 1 == |s.owner|
    ensures t.rxBuf < |t.owner| && t.owner[t.rxBuf] == Dma && t.rxBuf !in WithMac(p, s, es, {})
  {
    RunSound(p, s, es, t);
    HandedTracked(p, s, es, t, {});
    CountSet(t.owner, Handed, WithMac(p, s, es, {}));
    CountAll(t.owner);
    CountAt(t.owner, Dma, t.rxBuf);
  }

  lemma StepKeepsHanded(p: GoodParser, s: Phy, ev: Event, b: nat)
    requires Sound(p, s) && Enabled(s, ev) && ev != Release(b)
    requires b < |s.owner| && s.owner[b] == Handed
    ensures var r := Step(p, s, ev);
            b < |r.owner| == |r.mem| && r.owner[b] == Handed && r.mem[b] == s.mem[b]
  {
    assert b != s.rxBuf;
  }

  /** A buffer with the MAC is not written by hardware or interrupt handler until it is released. */
  lemma {:induction false} HandedIntact(p: GoodParser, s: Phy, es: seq<Event>, t: Phy, b: nat)
    requires Sound(p, s) && Run(p, s, es, t) && Release(b) !in es
    requires b < |s.owner| && s.owner[b] == Handed
    ensures b < |t.owner| == |t.mem| && t.owner[b] == Handed && t.mem[b] == s.mem[b]
    decreases |es|
  {
    if es != [] {
      StepSound(p, s, es[0]);
      StepKeepsHanded(p, s, es[0], b);
      HandedIntact(p, Step(p, s, es[0]), es[1..], t, b);
    }
  }

  /**
   * What was checked in the DMA buffer is what the MAC reads: from the interrupt that delivers a frame
   * until the MAC releases the buffer, whatever arrives and happens meanwhile.
   */
  lemma DeliveredStays(p: GoodParser, s: Phy, e: Env, es: seq<Event>, t: Phy)
    requires Sound(p, s) && Fair(s, e) && !e.dmaBusy && OutcomeOf(s, e).Delivered?
    requires Run(p, RxIrq(p, s, e), es, t) && Release(s.rxBuf) !in es
    ensures s.rxBuf < |t.mem| && t.mem[s.rxBuf] == s.mem[s.rxBuf] && LengthOk(t.mem[s.rxBuf]) && CrcOk(t.mem[s.rxBuf])
    ensures t.rxBuf != s.rxBuf
  {
    RxIrqSound(p, s, e);
    HandedIntact(p, RxIrq(p, s, e), es, t, s.rxBuf);
    RunSound(p, RxIrq(p, s, e), es, t);
  }

  // ---------------------------------------------------------------- diagnostics

  /** Every handled interrupt has exactly one outcome. */
  lemma {:induction false} TallySum(log: seq<Outcome>)
    ensures |log| == Tally(log, KBad) + Tally(log, KFiltered) + Tally(log, KNoBuffer) + Tally(log, KDelivered)
  {
    if log != [] {
      TallySum(log[..|log| - 1]);
    }
  }

  /** The outcomes of the interrupts of a run, in order: one for each that finds the DMA idle. */
  ghost function Outcomes(p: GoodParser, s: Phy, es: seq<Event>): seq<Outcome>
    decreases |es|
  {
    if es == [] || !OwnsOne(s) || !Enabled(s, es[0]) then []
    else
      Logged(s, es[0]) + Outcomes(p, Step(p, s, es[0]), es[1..])
  }

  function Handled(es: seq<Event>): nat {
    if es == [] then 0 else (if es[0].Irq? && !es[0].env.dmaBusy then 1 else 0) + Handled(es[1..])
  }

  function Arrivals(es: seq<Event>): nat {
    if es == [] then 0 else (if es[0].Arrive? then 1 else 0) + Arrivals(es[1..])
  }

  /** What a step adds to the log. */
  ghost function Logged(s: Phy, ev: Event): seq<Outcome>
    requires OwnsOne(s)
  {
    if ev.Irq? && !ev.env.dmaBusy then [OutcomeOf(s, ev.env)] else []
  }

  lemma StepLog(p: GoodParser, s: Phy, ev: Event)
    requires Sound(p, s) && Enabled(s, ev)
    ensures Step(p, s, ev).log == s.log + Logged(s, ev)
    ensures Step(p, s, ev).arrivals == s.arrivals + if ev.Arrive? then 1 else 0
  {
  }

  /** How the outcomes and counts of a run unfold by one event, `r` being the state after it. */
  lemma FirstOutcome(p: GoodParser, s: Phy, es: seq<Event>, r: Phy)
    requires es != [] && OwnsOne(s) && Enabled(s, es[0]) && r == Step(p, s, es[0])
    ensures Outcomes(p, s, es) == Logged(s, es[0]) + Outcomes(p, r, es[1..])
    ensures Handled(es) == |Logged(s, es[0])| + Handled(es[1..])
    ensures Arrivals(es) == (if es[0].Arrive? then 1 else 0) + Arrivals(es[1..])
  {
  }

  lemma Appended(log: seq<Outcome>, one: seq<Outcome>, rest: seq<Outcome>)
    ensures log + one + rest == log + (one + rest)
  {
  }

  lemma {:induction false} LogGrows(p: GoodParser, s: Phy, es: seq<Event>, t: Phy)
    requires Sound(p, s) && Run(p, s, es, t)
    ensures t.log == s.log + Outcomes(p, s, es) && |Outcomes(p, s, es)| == Handled(es)
    ensures t.arrivals == s.arrivals + Arrivals(es)
    decreases |es|
  {
    if es != [] {
      StepSound(p, s, es[0]);
      StepLog(p, s, es[0]);
      FirstOutcome(p, s, es, Step(p, s, es[0]));
      Appended(s.log, Logged(s, es[0]), Outcomes(p, Step(p, s, es[0]), es[1..]));
      LogGrows(p, Step(p, s, es[0]), es[1..], t);
    }
  }

  /**
   * Over any run from an empty log: one outcome for each handled interrupt and no other, no more
   * deliveries than packets arrived, the counters are the tallies, and the acknowledgments sent are those owed.
   */
  lemma RunAccounts(p: GoodParser, s: Phy, es: seq<Event>, t: Phy)
    requires Sound(p, s) && Run(p, s, es, t) && s.log == [] && s.arrivals == 0
    ensures t.log == Outcomes(p, s, es)
    ensures Handled(es) == Tally(t.log, KBad) + Tally(t.log, KFiltered) + Tally(t.log, KNoBuffer) + Tally(t.log, KDelivered)
    ensures Tally(t.log, KDelivered) <= Arrivals(es)
    ensures t.air == Owed(p, t.log) && Counts(t.diag, t.log)
    ensures t.rxOn && t.irqMask && (t.rfState == RfRx ==> t.mode == RxMode)
  {
    LogGrows(p, s, es, t);
    assert s.log + Outcomes(p, s, es) == Outcomes(p, s, es);
    RunSound(p, s, es, t);
    TallySum(t.log);
  }

  /** After any run, what an observer of the three counters can recover: the frames dropped by the filter or delivered, modulo the narrowest. */
  lemma CountersConserved(p: GoodParser, s: Phy, es: seq<Event>, t: Phy)
    requires Sound(p, s) && Run(p, s, es, t)
    ensures (t.diag.rxIrq - t.diag.crcFail - t.diag.queueLimit) % IRQ_CNT_WRAP
         == (Tally(t.log, KFiltered) + Tally(t.log, KDelivered)) % IRQ_CNT_WRAP
  {
    RunSound(p, s, es, t);
    TallySum(t.log);
    CountersDiffer(|t.log|, Tally(t.log, KBad), Tally(t.log, KNoBuffer));
  }

  /** Differences of wrapped counters are right modulo the narrowest. */
  lemma CountersDiffer(n: nat, c: nat, q: nat)
    ensures (n % IRQ_CNT_WRAP - c % CRC_FAIL_WRAP - q % QUEUE_LIMIT_WRAP) % IRQ_CNT_WRAP == (n - c - q) % IRQ_CNT_WRAP
  {
    var a, b, e := n / IRQ_CNT_WRAP, c / CRC_FAIL_WRAP, q / QUEUE_LIMIT_WRAP;
    Unwrapped(n, c, q);
    SameMod(n % IRQ_CNT_WRAP - c % CRC_FAIL_WRAP - q % QUEUE_LIMIT_WRAP, n - c - q, b * 0x100_0000 + e * 0x100 - a);
  }

  lemma Unwrapped(n: nat, c: nat, q: nat)
    ensures n == n / IRQ_CNT_WRAP * 0x100 + n % IRQ_CNT_WRAP
    ensures c == c / CRC_FAIL_WRAP * 0x1_0000_0000 + c % CRC_FAIL_WRAP
    ensures q == q / QUEUE_LIMIT_WRAP * 0x1_0000 + q % QUEUE_LIMIT_WRAP
  {
  }

  lemma SameMod(x: int, y: int, k: int)
    requires x == y + k * 0x100
    ensures x % 0x100 == y % 0x100
  {
  }

  // ---------------------------------------------------------------- acknowledgments and the bytes of earlier frames

  /** A complete packet with good length and status, as the hardware writes it; frames have at most 127 bytes. */
  ghost predicate GoodPacket(packet: seq<byte>) {
    && 13 <= |packet| <= RF_PKT_BUFF_LEN && packet[0] as int + 4 == |packet| && packet[0] <= 140
    && packet[0] as int == packet[4] as int + 9 && packet[4] <= 127 && And(packet[|packet| - 1], 0x51) == 0x10
  }

  function Blank(): Buf {
    seq(RF_PKT_BUFF_LEN, i => 0)
  }

  /** The packet is no command with a source address, or holds every byte the data request test looks at. */
  ghost predicate SelfContained(p: GoodParser, packet: seq<byte>)
    requires GoodPacket(packet)
  {
    var m := MacPld(Landed(Blank(), packet));
    FrameType(m) != MAC_FRAME_COMMAND || !HasSource(m) || Inside(p, m, |packet| - RX_HDR_LEN)
  }

  lemma PayloadOver(b: Buf, packet: seq<byte>)
    requires GoodPacket(packet)
    ensures var m := MacPld(Landed(b, packet));
            && (forall i :: 0 <= i < |packet| - RX_HDR_LEN ==> m[i] == packet[RX_HDR_LEN + i])
            && (forall i :: |packet| - RX_HDR_LEN <= i < PLD_SIZE ==> m[i] == b[RX_HDR_LEN + i])
            && LengthOk(Landed(b, packet)) && CrcOk(Landed(b, packet))
  {
  }

  /** The acknowledgment of a packet is the same over whatever the buffer held exactly when nothing is pending or the packet is self-contained. */
  lemma AckDecidedByPacket(p: GoodParser, packet: seq<byte>, hasPending: bool)
    requires GoodPacket(packet)
    ensures (forall b: Buf :: AckFor(p, MacPld(Landed(b, packet)), hasPending) == AckFor(p, MacPld(Landed(Blank(), packet)), hasPending))
       <==> !hasPending || SelfContained(p, packet)
  {
    var m, len := MacPld(Landed(Blank(), packet)), |packet| - RX_HDR_LEN;
    DecidedByFrame(p, m, len);
    PayloadOver(Blank(), packet);
    if !hasPending || SelfContained(p, packet) {
      forall b: Buf
        ensures AckFor(p, MacPld(Landed(b, packet)), hasPending) == AckFor(p, m, hasPending)
      {
        PayloadOver(b, packet);
        assert SameFrame(m, MacPld(Landed(b, packet)), len);
      }
    } else {
      var e, e' := Telling(p, packet);
      assert AckFor(p, MacPld(Landed(e, packet)), hasPending) != AckFor(p, MacPld(Landed(e', packet)), hasPending);
    }
  }

  /** The longest packet, with these payload bytes but for its trailer. */
  function LongPacket(m: Payload): (e: seq<byte>)
    ensures |e| == 140
  {
    [136, 0, 0, 0, 127] + m[..134] + [0x10]
  }

  lemma LongPacketGood(m: Payload, b: Buf)
    ensures GoodPacket(LongPacket(m))
    ensures forall i :: 0 <= i < 134 ==> MacPld(Landed(b, LongPacket(m)))[i] == m[i]
  {
    StatusGood();
    PayloadOver(b, LongPacket(m));
  }

  /** The data request test looks at no byte past the longest headers. */
  lemma LooksAhead(p: GoodParser, m: Payload, m': Payload)
    requires forall i :: 0 <= i < 38 ==> m[i] == m'[i]
    ensures IsDataRequest(p, m) == IsDataRequest(p, m')
  {
    assert m[0] == m'[0] && m[1] == m'[1];
  }

  /** What a packet that is not self-contained reads over two good packets: one makes it a data request, the other does not. */
  lemma Telling(p: GoodParser, packet: seq<byte>) returns (e: Buf, e': Buf)
    requires GoodPacket(packet) && !SelfContained(p, packet)
    ensures GoodPacket(e[..140]) && GoodPacket(e'[..140])
    ensures HasSource(MacPld(Landed(e, packet))) && HasSource(MacPld(Landed(e', packet)))
    ensures IsDataRequest(p, MacPld(Landed(e, packet))) != IsDataRequest(p, MacPld(Landed(e', packet)))
  {
    var m, len := MacPld(Landed(Blank(), packet)), |packet| - RX_HDR_LEN;
    DecidedByFrame(p, m, len);
    var m': Payload :| SameFrame(m, m', len) && IsDataRequest(p, m') != IsDataRequest(p, m);
    e := OverPayload(p, packet, m);
    e' := OverPayload(p, packet, m');
    assert m[1] == m'[1];
  }

  /** A packet received over a long one with payload `m`, of which it is a beginning, is taken for what `m` is. */
  lemma OverPayload(p: GoodParser, packet: seq<byte>, m: Payload) returns (e: Buf)
    requires GoodPacket(packet) && SameFrame(MacPld(Landed(Blank(), packet)), m, |packet| - RX_HDR_LEN)
    ensures GoodPacket(e[..140]) && IsDataRequest(p, MacPld(Landed(e, packet))) == IsDataRequest(p, m)
    ensures MacPld(Landed(e, packet))[1] == m[1]
  {
    e := Landed(Blank(), LongPacket(m));
    LongPacketGood(m, Blank());
    PayloadOver(Blank(), packet);
    PayloadOver(e, packet);
    assert e[..140] == LongPacket(m);
    assert MacPld(e) == e[RX_HDR_LEN..];
    LooksAhead(p, MacPld(Landed(e, packet)), m);
  }

  /** An earlier frame is received and dropped by the filter; then `packet` arrives and is delivered. */
  function DropThenDeliver(earlier: seq<byte>, packet: seq<byte>, next: nat, hasPending: bool): seq<Event> {
    [Arrive(earlier), Irq(Env(false, true, None, false)), Arrive(packet), Irq(Env(false, false, Some(next), hasPending))]
  }

  lemma RunFirst(p: GoodParser, s: Phy, ev: Event, rest: seq<Event>, t: Phy)
    requires OwnsOne(s) && Enabled(s, ev) && Run(p, Step(p, s, ev), rest, t)
    ensures Run(p, s, [ev] + rest, t)
  {
    assert ([ev] + rest)[1..] == rest;
  }

  /** A good frame that the filter drops leaves its bytes in the DMA buffer, all but the two that are cleared. */
  lemma Dropped(p: GoodParser, s: Phy, earlier: seq<byte>) returns (t: Phy)
    requires Sound(p, s) && !s.txBusy && GoodPacket(earlier)
    ensures Sound(p, t) && t.rxBuf == s.rxBuf && t.owner == s.owner && t.txBusy == s.txBusy && t.air == s.air
    ensures t.log == s.log + [Filtered] && t.mem[t.rxBuf] == Cleared(Landed(s.mem[s.rxBuf], earlier))
    ensures Run(p, s, [Arrive(earlier), Irq(Env(false, true, None, false))], t)
  {
    var arrive, irq := Arrive(earlier), Irq(Env(false, true, None, false));
    var s1 := Step(p, s, arrive);
    StepSound(p, s, arrive);
    PayloadOver(s.mem[s.rxBuf], earlier);
    t := Step(p, s1, irq);
    StepSound(p, s1, irq);
    RunFirst(p, s1, irq, [], t);
    RunFirst(p, s, arrive, [irq], t);
  }

  lemma Answered(p: GoodParser, s: Phy, packet: seq<byte>, next: nat, hasPending: bool) returns (t: Phy)
    requires Sound(p, s) && !s.txBusy && next < |s.owner| && s.owner[next] == Free
    requires GoodPacket(packet) && AckRequested(packet[RX_HDR_LEN..])
    ensures t.air == s.air + [AckFor(p, MacPld(Landed(s.mem[s.rxBuf], packet)), hasPending)]
    ensures Run(p, s, [Arrive(packet), Irq(Env(false, false, Some(next), hasPending))], t)
  {
    var arrive, irq := Arrive(packet), Irq(Env(false, false, Some(next), hasPending));
    var s1 := Step(p, s, arrive);
    StepSound(p, s, arrive);
    assert s1.mem[s.rxBuf] == Landed(s.mem[s.rxBuf], packet);
    PayloadOver(s.mem[s.rxBuf], packet);
    t := Step(p, s1, irq);
    RunFirst(p, s1, irq, [], t);
    RunFirst(p, s, arrive, [irq], t);
  }

  lemma {:induction false} RunJoin(p: GoodParser, s: Phy, es: seq<Event>, t: Phy, fs: seq<Event>, u: Phy)
    requires Run(p, s, es, t) && Run(p, t, fs, u)
    ensures Run(p, s, es + fs, u)
    decreases |es|
  {
    if es == [] {
      assert es + fs == fs;
    } else {
      RunJoin(p, Step(p, s, es[0]), es[1..], t, fs, u);
      assert (es + fs)[1..] == es[1..] + fs;
    }
  }

  /** The acknowledgment at the end of such a run: it is formed over the earlier frame's bytes. */
  lemma AckOverEarlier(p: GoodParser, s: Phy, earlier: seq<byte>, packet: seq<byte>, next: nat, hasPending: bool) returns (t: Phy)
    requires Sound(p, s) && !s.txBusy && next < |s.owner| && s.owner[next] == Free && GoodPacket(earlier)
    requires GoodPacket(packet) && AckRequested(packet[RX_HDR_LEN..])
    ensures Run(p, s, DropThenDeliver(earlier, packet, next, hasPending), t)
    ensures t.air == s.air + [AckFor(p, MacPld(Landed(Landed(s.mem[s.rxBuf], earlier), packet)), hasPending)]
  {
    var u := Dropped(p, s, earlier);
    t := Answered(p, u, packet, next, hasPending);
    assert Landed(u.mem[u.rxBuf], packet) == Landed(Landed(s.mem[s.rxBuf], earlier), packet);
    var es, fs := [Arrive(earlier), Irq(Env(false, true, None, false))], [Arrive(packet), Irq(Env(false, false, Some(next), hasPending))];
    RunJoin(p, s, es, u, fs, t);
    assert es + fs == DropThenDeliver(earlier, packet, next, hasPending);
  }

  lemma {:induction false} RunUnique(p: GoodParser, s: Phy, es: seq<Event>, t: Phy, t': Phy)
    requires Run(p, s, es, t) && Run(p, s, es, t')
    ensures t == t'
    decreases |es|
  {
    if es != [] {
      RunUnique(p, Step(p, s, es[0]), es[1..], t, t');
    }
  }

  /** All runs that differ only in the good frame dropped end with the same acknowledgment. */
  ghost predicate EarlierIrrelevant(p: GoodParser, s: Phy, packet: seq<byte>, next: nat, hasPending: bool) {
    forall e: seq<byte>, t: Phy, e': seq<byte>, t': Phy ::
      DropRun(p, s, e, packet, next, hasPending, t) && DropRun(p, s, e', packet, next, hasPending, t') ==> t.air == t'.air
  }

  ghost predicate DropRun(p: GoodParser, s: Phy, earlier: seq<byte>, packet: seq<byte>, next: nat, hasPending: bool, t: Phy) {
    GoodPacket(earlier) && Run(p, s, DropThenDeliver(earlier, packet, next, hasPending), t)
  }

  lemma DropRunAck(p: GoodParser, s: Phy, e: seq<byte>, packet: seq<byte>, next: nat, hasPending: bool, t: Phy)
    requires Sound(p, s) && !s.txBusy && next < |s.owner| && s.owner[next] == Free
    requires GoodPacket(packet) && AckRequested(packet[RX_HDR_LEN..]) && DropRun(p, s, e, packet, next, hasPending, t)
    ensures t.air == s.air + [AckFor(p, MacPld(Landed(Landed(s.mem[s.rxBuf], e), packet)), hasPending)]
  {
    var t' := AckOverEarlier(p, s, e, packet, next, hasPending);
    RunUnique(p, s, DropThenDeliver(e, packet, next, hasPending), t, t');
  }

  /**
   * Whether a frame received and dropped by the filter can change the acknowledgment of the next packet: exactly
   * when data is pending and that packet is a command with a source address that ends before its command byte.
   */
  lemma EarlierFrameMatters(p: GoodParser, s: Phy, packet: seq<byte>, next: nat, hasPending: bool)
    requires Sound(p, s) && !s.txBusy && next < |s.owner| && s.owner[next] == Free
    requires GoodPacket(packet) && AckRequested(packet[RX_HDR_LEN..])
    ensures EarlierIrrelevant(p, s, packet, next, hasPending) <==> !hasPending || SelfContained(p, packet)
  {
    if !hasPending || SelfContained(p, packet) {
      AckDecidedByPacket(p, packet, hasPending);
      forall e: seq<byte>, t: Phy, e': seq<byte>, t': Phy |
        DropRun(p, s, e, packet, next, hasPending, t) && DropRun(p, s, e', packet, next, hasPending, t')
        ensures t.air == t'.air
      {
        DropRunAck(p, s, e, packet, next, hasPending, t);
        DropRunAck(p, s, e', packet, next, hasPending, t');
      }
    } else {
      var b, b' := Telling(p, packet);
      var t := AckOverLong(p, s, b, packet, next);
      var t' := AckOverLong(p, s, b', packet, next);
      assert t.air[|s.air|] != t'.air[|s.air|];
    }
  }

  /** A run over the long packet that begins `b`: data pending, the acknowledgment says whether it made a data request. */
  lemma AckOverLong(p: GoodParser, s: Phy, b: Buf, packet: seq<byte>, next: nat) returns (t: Phy)
    requires Sound(p, s) && !s.txBusy && next < |s.owner| && s.owner[next] == Free
    requires GoodPacket(packet) && AckRequested(packet[RX_HDR_LEN..]) && GoodPacket(b[..140]) && HasSource(MacPld(Landed(b, packet)))
    ensures DropRun(p, s, b[..140], packet, next, true, t)
    ensures t.air == s.air + [AckOnAir(packet[RX_HDR_LEN + 2], IsDataRequest(p, MacPld(Landed(b, packet))))]
  {
    t := AckOverEarlier(p, s, b[..140], packet, next, true);
    var m, m' := MacPld(Landed(b, packet)), MacPld(Landed(Landed(s.mem[s.rxBuf], b[..140]), packet));
    PayloadOver(b, packet);
    PayloadOver(Landed(s.mem[s.rxBuf], b[..140]), packet);
    assert forall i :: 0 <= i < 134 ==> m[i] == m'[i];
    LooksAhead(p, m, m');
  }

  /** A secured command of ten bytes with extended addresses, its eight trailer bytes ending in a good status. */
  const SHORT_COMMAND: seq<byte> := [19, 0, 0, 0, 10, 0x2B, 0xCC, 7, 0, 0, 0, 0, 0, 0, 0, 0, 0, 0, 0, 0, 0, 0, 0x10]

  /** Under the header lengths of the standard such a packet exists. */
  lemma ShortCommandNotSelfContained()
    ensures GoodPacket(SHORT_COMMAND) && AckRequested(SHORT_COMMAND[RX_HDR_LEN..])
    ensures !SelfContained(StandardParser(), SHORT_COMMAND)
  {
    StatusGood();
    PayloadOver(Blank(), SHORT_COMMAND);
    var m := MacPld(Landed(Blank(), SHORT_COMMAND));
    assert m[0] == 0x2B && m[1] == 0xCC;
    assert FrameControl(m) == 0xCC2B && StandardHdr(0xCC2B) == 23;
  }

  lemma StatusGood()
    ensures And(0x10, 0x51) == 0x10
  {
    assert AndBits(1, 5, 4) == 1 + 2 * AndBits(0, 2, 3);
    assert AndBits(0, 2, 3) == 2 * AndBits(0, 1, 2) && AndBits(0, 1, 2) == 2 * AndBits(0, 0, 1) && AndBits(0, 0, 1) == 0;
    assert AndBits(0x10, 0x51, 8) == 2 * AndBits(8, 40, 7) && AndBits(8, 40, 7) == 2 * AndBits(4, 20, 6);
    assert AndBits(4, 20, 6) == 2 * AndBits(2, 10, 5) && AndBits(2, 10, 5) == 2 * AndBits(1, 5, 4);
  }
}
