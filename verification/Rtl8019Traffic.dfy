/** Every run of the RTL8019: arrivals and releases among commands, register writes and remote DMA. */
module Rtl8019Traffic {
  import opened Common
  import opened Rtl8019Ring
  import opened Rtl8019Dma

  /** What reaches the card: packets from the host, and from the guest the release of the oldest frame, commands (`ok`
      is the host's answer to a transmit), the transfer, interrupt and transmit configuration registers, and the data
      port. */
  datatype Op = Arrive(packet: seq<byte>) | Free
              | Command(data: bv8, ok: bool) | SetTransfer(rsar: u16, rbcr: u16, tpsr: byte, tbcr: u16)
              | ClearIsr(bits: bv8) | SetImr(bits: bv8) | SetTcr(bits: bv8)
              | PutByte(x: byte) | PutWord(w: u16) | GetByte | GetHalfword

  /** The source does not check these: buffers inside the memory, a configured ring. And remote writes go to pages
      outside the ring, where a driver keeps its transmit buffers. */
  ghost predicate Allowed(s: Nic, op: Op) {
    && Configured(s)
    && match op
       case Arrive(p) => |p| <= MAX_PACKET
       case Command(data, _) => Transmits(s, data) ==> TransmitBase(s.io.dma) + s.io.dma.tbcr <= |s.sram|
       case PutByte(_) => Writing(s) ==> Outside(s.io.ring, s.io.dma.writeOffset)
       case PutWord(_) =>
         && WordSafe(s)
         && (Writing(s) ==> Outside(s.io.ring, s.io.dma.writeOffset) && Outside(s.io.ring, s.io.dma.writeOffset + 1))
       case GetByte => Reading(s) ==> s.io.dma.readOffset < SRAM_SIZE
       case GetHalfword => Reading(s) ==> s.io.dma.readOffset + 1 < SRAM_SIZE
       case _ => true
  }

  ghost function Step(s: Nic, op: Op): Nic
    requires Allowed(s, op)
  {
    match op
    case Arrive(p) => Receive(s, p)
    case Free => Release(s)
    case Command(data, ok) => WriteCr(s, data, ok)
    case SetTransfer(rsar, rbcr, tpsr, tbcr) =>
      s.(io := s.io.(dma := s.io.dma.(rsar := rsar, rbcr := rbcr, tpsr := tpsr, tbcr := tbcr)))
    case ClearIsr(bits) => s.(io := s.io.(flags := s.io.flags.(isr := Without(s.io.flags.isr, bits))))
    case SetImr(bits) => s.(io := s.io.(flags := s.io.flags.(imr := bits)))
    case SetTcr(bits) => s.(io := s.io.(flags := s.io.flags.(tcr := bits)))
    case PutByte(x) => RemoteWriteByte(s, x)
    case PutWord(w) => RemoteWriteWord(s, w)
    case GetByte => RemoteReadByte(s).0
    case GetHalfword => RemoteReadHalfword(s).0
  }

  /** The card after a run; an operation that is not allowed ends it. */
  ghost function Run(s: Nic, ops: seq<Op>): Nic {
    if ops == [] then s
    else
      var t := Run(s, ops[..|ops| - 1]);
      if Allowed(t, ops[|ops| - 1]) then Step(t, ops[|ops| - 1]) else t
  }

  ghost predicate AllAllowed(s: Nic, ops: seq<Op>) {
    forall k :: 0 <= k < |ops| ==> Allowed(Run(s, ops[..k]), ops[k])
  }

  // ---------- The simple form: a queue of packets and two switches ----------

  datatype Line = Line(queue: seq<seq<byte>>, stopped: bool, loopback: bool)

  /** An arrival is taken into a queue of `size` pages; in loopback, or stopped, the card does not see it. */
  ghost function LineStep(size: nat, l: Line, op: Op): Line {
    match op
    case Arrive(p) =>
      if !l.loopback && !l.stopped && Occupied(p) <= size - Pages(l.queue) then l.(queue := l.queue + [p]) else l
    case Free => if l.queue == [] then l else l.(queue := l.queue[1..])
    case Command(data, _) => if data & 0x38 == 0 then l else l.(stopped := Has(data, CMD_STOP))
    case SetTcr(bits) => l.(loopback := Has(bits, TCR_LOOP_EXT))
    case _ => l
  }

  ghost function LineAfter(size: nat, l: Line, ops: seq<Op>): Line {
    if ops == [] then l else LineStep(size, LineAfter(size, l, ops[..|ops| - 1]), ops[|ops| - 1])
  }

  /** The packet would fill the queue's free space exactly. */
  ghost predicate Fills(size: nat, l: Line, op: Op) {
    op.Arrive? && !l.loopback && !l.stopped && Occupied(op.packet) + Pages(l.queue) == size
  }

  ghost predicate NeverFills(size: nat, l: Line, ops: seq<Op>) {
    forall k :: 0 <= k < |ops| ==> !Fills(size, LineAfter(size, l, ops[..k]), ops[k])
  }

  predicate Loopback(s: Nic) {
    Has(s.io.flags.tcr, TCR_LOOP_EXT)
  }

  /** The card holds the line's packets, and is stopped or in loopback when the line is. */
  ghost predicate Carries(s: Nic, l: Line) {
    Holds(s, l.queue) && Has(s.io.flags.cr, CMD_STOP) == l.stopped && Loopback(s) == l.loopback
  }

  ghost predicate CarriesThroughout(s: Nic, l: Line, ops: seq<Op>)
    requires Fits(s.io.ring)
  {
    forall n :: 0 <= n <= |ops| ==>
      Carries(Run(s, ops[..n]), LineAfter(PageCount(s.io.ring), l, ops[..n]))
  }

  // ---------- One step ----------

  /** The ring and its two pointers are untouched, the stop bit is `stop` and the receiver in loopback when `loopback`. */
  ghost predicate Elsewhere(s: Nic, t: Nic, stop: bool, loopback: bool) {
    && |t.sram| == |s.sram| == SRAM_SIZE
    && t.io.ring == s.io.ring && t.io.curr == s.io.curr && t.io.bnry == s.io.bnry
    && Has(t.io.flags.cr, CMD_STOP) == stop && Loopback(t) == loopback
    && forall a :: 0 <= a < SRAM_SIZE && !Outside(s.io.ring, a) ==> t.sram[a] == s.sram[a]
  }

  /** Nothing but arrivals and releases touches the ring, only commands the stop bit, and only TCR writes
      the loopback bits. */
  lemma ElsewhereStep(s: Nic, op: Op)
    requires Allowed(s, op) && !op.Arrive? && !op.Free?
    ensures Elsewhere(s, Step(s, op),
      if op.Command? && op.data & 0x38 != 0 then Has(op.data, CMD_STOP) else Has(s.io.flags.cr, CMD_STOP),
      if op.SetTcr? then Has(op.bits, TCR_LOOP_EXT) else Loopback(s))
  {
    match op
    case Command(data, ok) =>
      hide Elsewhere;
      CommandElsewhere(s, data, ok);
    case PutByte(x) =>
      hide Elsewhere;
      PutByteElsewhere(s, x);
    case PutWord(w) =>
      hide Elsewhere;
      PutWordElsewhere(s, w);
    case GetByte =>
      hide Elsewhere;
      GetElsewhere(s);
    case GetHalfword =>
      hide Elsewhere;
      GetElsewhere(s);
    case _ =>
      hide Has, Without, Outside;
  }

  lemma FinishKeeps(io: Io, command: bv8, count: nat)
    requires command == CMD_READ || command == CMD_WRITE
    ensures var t := FinishIf(io, command, count);
      && t.ring == io.ring && t.curr == io.curr && t.bnry == io.bnry && t.flags.tcr == io.flags.tcr
      && Has(t.flags.cr, CMD_STOP) == Has(io.flags.cr, CMD_STOP)
  {
    FinishFlags(io, command);
    hide Has, With, Without;
  }

  lemma CommandElsewhere(s: Nic, data: bv8, ok: bool)
    requires |s.sram| == SRAM_SIZE && (Transmits(s, data) ==> TransmitBase(s.io.dma) + s.io.dma.tbcr <= |s.sram|)
    ensures Elsewhere(s, WriteCr(s, data, ok),
      if data & 0x38 != 0 then Has(data, CMD_STOP) else Has(s.io.flags.cr, CMD_STOP), Loopback(s))
  {
    hide Has, With, Outside;
  }

  lemma PutByteElsewhere(s: Nic, x: byte)
    requires |s.sram| == SRAM_SIZE && (Writing(s) ==> Outside(s.io.ring, s.io.dma.writeOffset))
    ensures Elsewhere(s, RemoteWriteByte(s, x), Has(s.io.flags.cr, CMD_STOP), Loopback(s))
  {
    var t := RemoteWriteByte(s, x);
    FinishKeeps(s.io.(dma := t.io.dma), CMD_WRITE, t.io.dma.writeCount);
    hide Has, With, Outside, FinishIf, Minus;
  }

  lemma PutWordElsewhere(s: Nic, w: u16)
    requires |s.sram| == SRAM_SIZE && WordSafe(s)
    requires Writing(s) ==> Outside(s.io.ring, s.io.dma.writeOffset) && Outside(s.io.ring, s.io.dma.writeOffset + 1)
    ensures Elsewhere(s, RemoteWriteWord(s, w), Has(s.io.flags.cr, CMD_STOP), Loopback(s))
  {
    var t := RemoteWriteWord(s, w);
    FinishKeeps(s.io.(dma := t.io.dma), CMD_WRITE, t.io.dma.writeCount);
    hide Has, With, Outside, FinishIf, Minus;
  }

  lemma GetElsewhere(s: Nic)
    requires |s.sram| == SRAM_SIZE
    ensures (Reading(s) ==> s.io.dma.readOffset < SRAM_SIZE) ==>
      Elsewhere(s, RemoteReadByte(s).0, Has(s.io.flags.cr, CMD_STOP), Loopback(s))
    ensures (Reading(s) ==> s.io.dma.readOffset + 1 < SRAM_SIZE) ==>
      Elsewhere(s, RemoteReadHalfword(s).0, Has(s.io.flags.cr, CMD_STOP), Loopback(s))
  {
    var d := s.io.dma;
    if Reading(s) && d.readOffset < SRAM_SIZE {
      FinishKeeps(s.io.(dma := RemoteReadByte(s).0.io.dma), CMD_READ, Minus(d.readCount, 1));
    }
    if Reading(s) && d.readOffset + 1 < SRAM_SIZE {
      FinishKeeps(s.io.(dma := RemoteReadHalfword(s).0.io.dma), CMD_READ, Minus(d.readCount, 2));
    }
    hide Has, With, Outside, FinishIf, Minus;
  }

  /** The guest's register writes: the transfer registers, the masks, and the status bits that a write of ones clears. */
  lemma RegistersWritten(s: Nic, rsar: u16, rbcr: u16, tpsr: byte, tbcr: u16, bits: bv8)
    requires Configured(s)
    ensures Step(s, SetTransfer(rsar, rbcr, tpsr, tbcr)).io.dma ==
      Dma(rsar, rbcr, tpsr, tbcr, s.io.dma.readOffset, s.io.dma.readCount, s.io.dma.writeOffset, s.io.dma.writeCount)
    ensures Step(s, ClearIsr(bits)).io.flags == s.io.flags.(isr := s.io.flags.isr & !bits)
    ensures Step(s, SetImr(bits)).io.flags == s.io.flags.(imr := bits)
    ensures Step(s, SetTcr(bits)).io.flags == s.io.flags.(tcr := bits)
  {
  }

  lemma LineFollows(s: Nic, l: Line, op: Op)
    requires Carries(s, l) && Allowed(s, op)
    ensures var size := PageCount(s.io.ring);
      && (Carries(Step(s, op), LineStep(size, l, op)) <==> !Fills(size, l, op))
      && Step(s, op).io.ring == s.io.ring
  {
    hide Holds, Has, Occupied, Pages, Padded, Chain, Unrolled, Stored, Frame;
    match op
    case Arrive(p) =>
      ReceiveKeepsFlags(s, p);
      if !Stopped(s.io.flags) {
        ArrivalHolds(s, l.queue, p);
      }
    case Free =>
      ReleaseTakesFirst(s, l.queue);
    case _ =>
      ElsewhereStep(s, op);
      HoldsElsewhere(s, Step(s, op), l.queue);
  }

  lemma ReceiveKeepsFlags(s: Nic, p: seq<byte>)
    requires Configured(s) && |p| <= MAX_PACKET
    ensures var t := Receive(s, p); t.io.flags.cr == s.io.flags.cr && t.io.flags.tcr == s.io.flags.tcr
  {
    hide Has, With, Stored, Frame;
  }

  lemma {:induction false} RunKeepsSetup(s: Nic, ops: seq<Op>)
    ensures Run(s, ops).io.ring == s.io.ring
    decreases |ops|
  {
    hide Step, Has, Allowed;
    if ops != [] {
      var t, op := Run(s, ops[..|ops| - 1]), ops[|ops| - 1];
      RunKeepsSetup(s, ops[..|ops| - 1]);
      if Allowed(t, op) {
        StepKeepsSetup(t, op);
      }
    }
  }

  lemma StepKeepsSetup(s: Nic, op: Op)
    requires Allowed(s, op)
    ensures Step(s, op).io.ring == s.io.ring
  {
    hide Has, With, Stored, Frame;
    match op
    case Arrive(p) => ReceiveKeepsFlags(s, p);
    case Free =>
    case _ => ElsewhereStep(s, op);
  }

  // ---------- Every run ----------

  lemma ThroughoutSplits(s: Nic, l: Line, ops: seq<Op>, m: nat)
    requires Fits(s.io.ring) && |ops| == m + 1
    ensures var size := PageCount(s.io.ring);
      && (CarriesThroughout(s, l, ops) <==>
            CarriesThroughout(s, l, ops[..m]) && Carries(Run(s, ops), LineAfter(size, l, ops)))
      && (NeverFills(size, l, ops) <==>
            && NeverFills(size, l, ops[..m])
            && !Fills(size, LineAfter(size, l, ops[..m]), ops[m]))
      && (AllAllowed(s, ops) ==> AllAllowed(s, ops[..m]) && Allowed(Run(s, ops[..m]), ops[m]))
  {
    hide Run, LineAfter, Carries, Fills, Allowed, Loopback;
    assert ops[..m + 1] == ops;
    assert forall n :: 0 <= n <= m ==> ops[..m][..n] == ops[..n];
  }

  /** The last step of a run that was carried so far. */
  lemma LastStep(s: Nic, l: Line, ops: seq<Op>, m: nat)
    requires Fits(s.io.ring) && |ops| == m + 1 && CarriesThroughout(s, l, ops[..m]) && Allowed(Run(s, ops[..m]), ops[m])
    ensures var size := PageCount(s.io.ring);
      var before := LineAfter(size, l, ops[..m]);
      Carries(Run(s, ops), LineAfter(size, l, ops)) <==> !Fills(size, before, ops[m])
  {
    hide Carries, Fills, Allowed, Step, LineStep, Loopback;
    var t := Run(s, ops[..m]);
    assert ops[..m][..m] == ops[..m];
    RunKeepsSetup(s, ops[..m]);
    LineFollows(t, LineAfter(PageCount(s.io.ring), l, ops[..m]), ops[m]);
  }

  /** Over every run of arrivals, releases, commands, transfers and data-port accesses, the ring holds exactly the
      accepted unread packets, in order, exactly as long as no packet fills the free space. */
  lemma {:induction false} RingIsQueue(s: Nic, l: Line, ops: seq<Op>)
    requires Carries(s, l) && AllAllowed(s, ops)
    ensures Fits(s.io.ring)
    ensures CarriesThroughout(s, l, ops) <==> NeverFills(PageCount(s.io.ring), l, ops)
    decreases |ops|
  {
    HoldsConfigured(s, l.queue);
    if ops == [] {
      assert ops[..0] == [];
      hide Carries, Fills, Loopback, Allowed;
    } else {
      hide Carries, Fills, Allowed, Loopback, AllAllowed, Run, LineAfter, CarriesThroughout, NeverFills;
      var m := |ops| - 1;
      ThroughoutSplits(s, l, ops, m);
      RingIsQueue(s, l, ops[..m]);
      if CarriesThroughout(s, l, ops[..m]) {
        LastStep(s, l, ops, m);
      }
    }
  }

  /** The guest that compares BNRY and CURR, and reads at BNRY when they differ, gets the queue's oldest packet, whole. */
  ghost predicate Delivers(t: Nic, q: seq<seq<byte>>, ok: bool) {
    && Configured(t) && (t.io.bnry == t.io.curr <==> q == [])
    && (q != [] ==>
          var n := (if |q[0]| < 60 then 60 else |q[0]|) + 4;
          n <= PageCount(t.io.ring) * PAGE_SIZE && IsFrame(ReadRing(t, t.io.bnry, n, ok), q[0]))
  }

  lemma HoldsDelivers(t: Nic, q: seq<seq<byte>>, ok: bool)
    requires Holds(t, q)
    ensures Delivers(t, q, ok)
  {
    hide ReadRing, Frame, Padded, Chain, Unrolled, Cyclic, IsFrame;
    if q != [] {
      FrameReadsBack(t, q, ok);
    }
  }

  /** So after any such run the guest gets exactly the accepted packets, oldest first. */
  lemma OldestReadsBack(s: Nic, l: Line, ops: seq<Op>, ok: bool)
    requires Carries(s, l) && AllAllowed(s, ops) && Fits(s.io.ring)
    requires NeverFills(PageCount(s.io.ring), l, ops)
    ensures Delivers(Run(s, ops), LineAfter(PageCount(s.io.ring), l, ops).queue, ok)
  {
    RingIsQueue(s, l, ops);
    assert ops[..|ops|] == ops;
    hide Run, LineAfter, Delivers, Holds, Loopback, Has;
    assert Carries(Run(s, ops), LineAfter(PageCount(s.io.ring), l, ops));
    HoldsDelivers(Run(s, ops), LineAfter(PageCount(s.io.ring), l, ops).queue, ok);
  }
}
