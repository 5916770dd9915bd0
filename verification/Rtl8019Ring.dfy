/** The RTL8019 receive ring: frames linked page by page in the card's memory. */
module Rtl8019Ring {
  import opened BitFields
  import opened Common

  const START_PAGE := 0x40
  const END_PAGE := 0x80
  const PAGE_SIZE := 0x100
  const SRAM_SIZE := (END_PAGE - START_PAGE) * PAGE_SIZE
  const MAX_PACKET := 1600

  /** PSTART and PSTOP: the pages of the receive ring. */
  datatype Ring = Ring(start: nat, stop: nat)

  predicate Fits(r: Ring) {
    START_PAGE <= r.start < r.stop <= END_PAGE
  }

  predicate InRing(r: Ring, page: nat) {
    r.start <= page < r.stop
  }

  function PageCount(r: Ring): nat
    requires Fits(r)
  {
    r.stop - r.start
  }

  /** A packet of less than 60 bytes is padded with zeros. */
  function Padded(packet: seq<byte>): (p: seq<byte>)
    ensures |p| == if |packet| < 60 then 60 else |packet|
    ensures forall i :: 0 <= i < |p| ==> p[i] == if i < |packet| then packet[i] else 0
  {
    if |packet| < 60 then packet + seq(60 - |packet|, _ => 0) else packet
  }

  /** The pages a packet takes with its 4-byte header. */
  function Occupied(packet: seq<byte>): (n: nat)
    ensures 0 < n && |Padded(packet)| + 4 <= n * PAGE_SIZE < |Padded(packet)| + 4 + PAGE_SIZE
  {
    (|Padded(packet)| + 4 + 255) / PAGE_SIZE
  }

  /** The page `n` pages after `page`, round the ring. */
  function Next(r: Ring, page: nat, n: nat): nat
    requires Fits(r) && InRing(r, page) && n <= PageCount(r)
  {
    if page + n >= r.stop then page + n - PageCount(r) else page + n
  }

  /** A received frame: status, next page, length, packet. */
  function Frame(next: byte, packet: seq<byte>): (f: seq<byte>)
    requires |packet| <= MAX_PACKET
    ensures |f| == |Padded(packet)| + 4
  {
    var n := |Padded(packet)| + 4;
    [1, next, n % 0x100, n / 0x100] + Padded(packet)
  }

  /** The memory address of byte `k` of the ring, counted from the start of `page` and round the end. */
  function Cyclic(r: Ring, page: nat, k: nat): (a: nat)
    requires Fits(r) && InRing(r, page) && k < PageCount(r) * PAGE_SIZE
    ensures (r.start - START_PAGE) * PAGE_SIZE <= a < (r.stop - START_PAGE) * PAGE_SIZE <= SRAM_SIZE
  {
    var a := (page - START_PAGE) * PAGE_SIZE + k;
    if a < (r.stop - START_PAGE) * PAGE_SIZE then a else a - PageCount(r) * PAGE_SIZE
  }

  /** The ring's bytes in reading order from `page`. */
  ghost function Unrolled(sram: seq<byte>, r: Ring, page: nat): (v: seq<byte>)
    requires |sram| == SRAM_SIZE && Fits(r) && InRing(r, page)
    ensures |v| == PageCount(r) * PAGE_SIZE
    ensures forall k :: 0 <= k < |v| ==> v[k] == sram[Cyclic(r, page, k)]
  {
    seq(PageCount(r) * PAGE_SIZE, k requires 0 <= k < PageCount(r) * PAGE_SIZE => sram[Cyclic(r, page, k)])
  }

  /** Memory with `data` stored cyclically from the start of `page`, given byte by byte of the address. */
  ghost function Stored(sram: seq<byte>, r: Ring, page: nat, data: seq<byte>): (t: seq<byte>)
    requires |sram| == SRAM_SIZE && Fits(r) && InRing(r, page) && |data| <= PageCount(r) * PAGE_SIZE
    ensures |t| == SRAM_SIZE
  {
    var first, base := (r.start - START_PAGE) * PAGE_SIZE, (page - START_PAGE) * PAGE_SIZE;
    var end := (r.stop - START_PAGE) * PAGE_SIZE;
    seq(SRAM_SIZE, a requires 0 <= a < SRAM_SIZE =>
      if base <= a < end && a - base < |data| then data[a - base]
      else if first <= a < base && a - first + end - base < |data| then data[a - first + end - base]
      else sram[a])
  }

  /** A stored block reads back cyclically, and no other byte of the memory changes. */
  lemma StoredReadsBack(sram: seq<byte>, r: Ring, page: nat, data: seq<byte>)
    requires |sram| == SRAM_SIZE && Fits(r) && InRing(r, page) && |data| <= PageCount(r) * PAGE_SIZE
    ensures Unrolled(Stored(sram, r, page, data), r, page) == data + Unrolled(sram, r, page)[|data|..]
    ensures forall a :: 0 <= a < SRAM_SIZE ==>
      || Stored(sram, r, page, data)[a] == sram[a]
      || exists k :: 0 <= k < |data| && Cyclic(r, page, k) == a
  {
    var t := Stored(sram, r, page, data);
    var first, base := (r.start - START_PAGE) * PAGE_SIZE, (page - START_PAGE) * PAGE_SIZE;
    var end := (r.stop - START_PAGE) * PAGE_SIZE;
    forall a | 0 <= a < SRAM_SIZE
      ensures t[a] == sram[a] || exists k :: 0 <= k < |data| && Cyclic(r, page, k) == a
    {
      if base <= a < end && a - base < |data| {
        assert Cyclic(r, page, a - base) == a;
      } else if first <= a < base && a - first + end - base < |data| {
        assert Cyclic(r, page, a - first + end - base) == a;
      }
    }
  }

  /** Reading on from a later page is reading the same bytes further along. */
  lemma UnrolledFrom(sram: seq<byte>, r: Ring, page: nat, n: nat)
    requires |sram| == SRAM_SIZE && Fits(r) && InRing(r, page) && n <= PageCount(r)
    ensures InRing(r, Next(r, page, n))
    ensures Unrolled(sram, r, Next(r, page, n))
         == Unrolled(sram, r, page)[n * PAGE_SIZE..] + Unrolled(sram, r, page)[..n * PAGE_SIZE]
  {
  }

  // ---------- The frames in the ring ----------

  function Pages(q: seq<seq<byte>>): nat {
    if q == [] then 0 else Occupied(q[0]) + Pages(q[1..])
  }

  /** At byte `off` of `v`, at page `page`, stands the frame of `p`, whose header names the page after it. */
  ghost predicate FrameAt(v: seq<byte>, r: Ring, off: nat, page: nat, p: seq<byte>)
    requires Fits(r) && |v| == PageCount(r) * PAGE_SIZE
  {
    var n := Occupied(p);
    && |p| <= MAX_PACKET && InRing(r, page) && off + n * PAGE_SIZE <= |v| && n <= PageCount(r)
    && v[off..off + |Padded(p)| + 4] == Frame(Next(r, page, n), p)
  }

  /** From byte `off` of `v`, at page `page`, stand the frames of `q`, each header naming the next frame's page. */
  ghost predicate Chain(v: seq<byte>, r: Ring, off: nat, page: nat, q: seq<seq<byte>>)
    requires Fits(r) && |v| == PageCount(r) * PAGE_SIZE
    decreases |q|
  {
    q == [] ||
    (FrameAt(v, r, off, page, q[0])
     && Chain(v, r, off + Occupied(q[0]) * PAGE_SIZE, Next(r, page, Occupied(q[0])), q[1..]))
  }

  lemma NextAdds(r: Ring, page: nat, a: nat, b: nat)
    requires Fits(r) && InRing(r, page) && a + b <= PageCount(r)
    ensures InRing(r, Next(r, page, a))
    ensures Next(r, Next(r, page, a), b) == Next(r, page, a + b)
  {
  }

  /** Only a whole turn, or none, leads back to the same page. */
  lemma NextReturns(r: Ring, page: nat, n: nat)
    requires Fits(r) && InRing(r, page) && n <= PageCount(r)
    ensures Next(r, page, n) == page <==> n == 0 || n == PageCount(r)
  {
  }

  lemma PagesAppend(q: seq<seq<byte>>, p: seq<byte>)
    ensures Pages(q + [p]) == Pages(q) + Occupied(p)
  {
    if q != [] {
      assert (q + [p])[1..] == q[1..] + [p];
      PagesAppend(q[1..], p);
    }
  }

  lemma {:induction false} ChainPrefix(v: seq<byte>, v': seq<byte>, r: Ring, off: nat, page: nat, q: seq<seq<byte>>, m: nat)
    requires Fits(r) && |v| == |v'| == PageCount(r) * PAGE_SIZE && m <= |v|
    requires Chain(v, r, off, page, q) && v[..m] == v'[..m] && off + Pages(q) * PAGE_SIZE <= m
    ensures Chain(v', r, off, page, q)
    decreases |q|
  {
    hide Frame, Next, Padded, Occupied;
    if q != [] {
      NextAdds(r, page, Occupied(q[0]), 0);
      var n := |Padded(q[0])| + 4;
      SliceOfPrefix(v, m, off, n);
      SliceOfPrefix(v', m, off, n);
      ChainPrefix(v, v', r, off + Occupied(q[0]) * PAGE_SIZE, Next(r, page, Occupied(q[0])), q[1..], m);
    }
  }

  lemma SliceOfPrefix(v: seq<byte>, m: nat, off: nat, n: nat)
    requires off + n <= m <= |v|
    ensures v[..m][off..off + n] == v[off..off + n]
  {
  }

  lemma {:induction false} ChainAppend(v: seq<byte>, r: Ring, off: nat, page: nat, q: seq<seq<byte>>,
                                       p: seq<byte>, at: nat, next: byte)
    requires Fits(r) && |v| == PageCount(r) * PAGE_SIZE && InRing(r, page) && |p| <= MAX_PACKET
    requires Chain(v, r, off, page, q) && at == off + Pages(q) * PAGE_SIZE && at + Occupied(p) * PAGE_SIZE <= |v|
    requires next == Next(r, page, Pages(q) + Occupied(p)) && v[at..at + |Padded(p)| + 4] == Frame(next, p)
    ensures Chain(v, r, off, page, q + [p])
    decreases |q|
  {
    hide Frame, Next, Padded, Occupied;
    if q == [] {
      assert (q + [p])[1..] == [] && FrameAt(v, r, off, page, p);
    } else {
      var n := Occupied(q[0]);
      var u := q + [p];
      assert u[0] == q[0] && u[1..] == q[1..] + [p];
      NextAdds(r, page, n, Pages(q[1..]) + Occupied(p));
      hide FrameAt;
      ChainAppend(v, r, off + n * PAGE_SIZE, Next(r, page, n), q[1..], p, at, next);
    }
  }

  lemma SliceOfRest(v: seq<byte>, m: nat, off: nat, n: nat)
    requires m + off + n <= |v|
    ensures v[m..][off..off + n] == v[off + m..off + m + n]
  {
  }

  lemma {:induction false} ChainShift(v: seq<byte>, w: seq<byte>, r: Ring, off: nat, n: nat, page: nat, q: seq<seq<byte>>)
    requires Fits(r) && |v| == |w| == PageCount(r) * PAGE_SIZE && n <= |v|
    requires w[..|v| - n] == v[n..] && Chain(v, r, off + n, page, q)
    ensures Chain(w, r, off, page, q)
    decreases |q|
  {
    hide Frame, Next, Padded, Occupied;
    if q != [] {
      var k := |Padded(q[0])| + 4;
      SliceOfRest(v, n, off, k);
      SliceOfPrefix(w, |v| - n, off, k);
      ChainShift(v, w, r, off + Occupied(q[0]) * PAGE_SIZE, n, Next(r, page, Occupied(q[0])), q[1..]);
    }
  }

  // ---------- The card ----------

  const CMD_STOP: bv8 := 0x01
  const CMD_RUN: bv8 := 0x02
  const CMD_XMIT: bv8 := 0x04
  const CMD_READ: bv8 := 0x08
  const CMD_WRITE: bv8 := 0x10
  const CMD_NODMA: bv8 := 0x20

  const ISR_PRX: bv8 := 0x01
  const ISR_PTX: bv8 := 0x02
  const ISR_OVW: bv8 := 0x10
  const ISR_RDC: bv8 := 0x40

  const TCR_LOOP_EXT: bv8 := 0x06
  const TSR_PTX: bv8 := 0x01
  const TSR_COL: bv8 := 0x04
  const RSR_RXOK: bv8 := 0x01

  /** Flag registers. */
  datatype Flags = Flags(cr: bv8, isr: bv8, imr: bv8, tcr: bv8, tsr: bv8, rsr: bv8)

  /** Remote DMA and transmit registers, the byte pairs as 16-bit numbers; offsets and counts are 32-bit. */
  datatype Dma = Dma(rsar: u16, rbcr: u16, tpsr: byte, tbcr: u16,
                     readOffset: u32, readCount: u32, writeOffset: u32, writeCount: u32)

  /** The registers of `net_rtl8019_io`, the packets handed to the host and the interrupts raised. */
  datatype Io = Io(flags: Flags, ring: Ring, curr: nat, bnry: nat, dma: Dma, needUpdate: bool,
                   sent: seq<seq<byte>>, irqs: nat)

  datatype Nic = Nic(io: Io, sram: seq<byte>)

  predicate Has(x: bv8, bit: bv8) {
    x & bit != 0
  }

  function With(x: bv8, bit: bv8): bv8 {
    x | bit
  }

  predicate Stopped(f: Flags) {
    Has(f.cr, CMD_STOP) || Has(f.tcr, TCR_LOOP_EXT)
  }

  /** Set an interrupt status bit, and interrupt the CPU if the bit is not masked. */
  function Raise(io: Io, bit: bv8): Io {
    io.(flags := io.flags.(isr := With(io.flags.isr, bit)), irqs := io.irqs + if Has(bit, io.flags.imr) then 1 else 0)
  }

  /** The registers after a packet stored up to page `next`. */
  function Accepted(io: Io, next: nat): Io {
    Raise(io.(curr := next, flags := io.flags.(rsr := With(io.flags.rsr, RSR_RXOK)),
              needUpdate := io.needUpdate || Has(ISR_PRX, io.flags.imr)),
          ISR_PRX)
  }

  ghost predicate Configured(s: Nic) {
    |s.sram| == SRAM_SIZE && Fits(s.io.ring) && InRing(s.io.ring, s.io.curr) && InRing(s.io.ring, s.io.bnry)
  }

  /** The free space as the card computes it. */
  function FreePages(io: Io): int {
    if io.curr < io.bnry then io.bnry - io.curr else io.ring.stop - io.ring.start - (io.curr - io.bnry)
  }

  /** rtl8019_input, for a packet the host delivers. */
  ghost function Receive(s: Nic, packet: seq<byte>): (t: Nic)
    requires !Stopped(s.io.flags) ==> Configured(s)
    requires |packet| <= MAX_PACKET
    ensures t.io.ring == s.io.ring && t.io.bnry == s.io.bnry && Stopped(t.io.flags) == Stopped(s.io.flags)
    ensures Configured(s) ==> Configured(t)
  {
    if Stopped(s.io.flags) then s
    else if Occupied(packet) > FreePages(s.io) then s.(io := Raise(s.io, ISR_OVW))
    else
      var next := Next(s.io.ring, s.io.curr, Occupied(packet));
      Nic(Accepted(s.io, next), Stored(s.sram, s.io.ring, s.io.curr, Frame(next, packet)))
  }

  /** The guest done with the oldest frame: BNRY moves to the page that frame's header names. */
  ghost function Release(s: Nic): Nic
    requires Configured(s)
  {
    if s.io.bnry == s.io.curr then s else s.(io := s.io.(bnry := s.sram[Cyclic(s.io.ring, s.io.bnry, 1)]))
  }

  /** The ring holds the unread packets `q`: a chain of frames from BNRY to CURR, and the guest, who compares the two,
      sees an empty ring exactly when there are none. */
  ghost predicate Holds(s: Nic, q: seq<seq<byte>>) {
    && Configured(s) && Pages(q) <= PageCount(s.io.ring)
    && s.io.curr == Next(s.io.ring, s.io.bnry, Pages(q))
    && (s.io.bnry == s.io.curr <==> q == [])
    && Chain(Unrolled(s.sram, s.io.ring, s.io.bnry), s.io.ring, 0, s.io.bnry, q)
  }

  /** A page stays free, and the card's own count of free pages is right. */
  lemma FreeIsRest(s: Nic, q: seq<seq<byte>>)
    requires Holds(s, q)
    ensures Pages(q) < PageCount(s.io.ring) && FreePages(s.io) == PageCount(s.io.ring) - Pages(q)
  {
    if q != [] {
      assert Pages(q) >= Occupied(q[0]) > 0;
    }
  }

  /** The bytes of an accepted frame, read cyclically from the old CURR; nothing else in memory changes. */
  lemma ReceiveStores(s: Nic, packet: seq<byte>)
    requires Configured(s) && !Stopped(s.io.flags) && |packet| <= MAX_PACKET && Occupied(packet) <= FreePages(s.io)
    ensures var t := Receive(s, packet); var f := Frame(t.io.curr, packet);
      && |f| <= PageCount(s.io.ring) * PAGE_SIZE
      && (forall k :: 0 <= k < |f| ==> t.sram[Cyclic(s.io.ring, s.io.curr, k)] == f[k])
      && (forall a :: 0 <= a < SRAM_SIZE ==>
            t.sram[a] == s.sram[a] || exists k :: 0 <= k < |f| && Cyclic(s.io.ring, s.io.curr, k) == a)
  {
    var f := Frame(Next(s.io.ring, s.io.curr, Occupied(packet)), packet);
    hide Frame, Padded, Occupied;
    StoredReadsBack(s.sram, s.io.ring, s.io.curr, f);
    var t := Stored(s.sram, s.io.ring, s.io.curr, f);
    forall k | 0 <= k < |f|
      ensures t[Cyclic(s.io.ring, s.io.curr, k)] == f[k]
    {
      assert Unrolled(t, s.io.ring, s.io.curr)[k] == f[k];
    }
  }

  /** The memory address of byte `k` from the start of page `page`, round the pages from `start` up to `stop`. */
  function RingAddress(start: nat, stop: nat, page: nat, k: nat): int {
    var a := (page - 0x40) * 0x100 + k;
    if a < (stop - 0x40) * 0x100 then a else a - (stop - start) * 0x100
  }

  /** Byte `k` of the frame of `packet`: receive status, next page, length with the header, low byte first, and then the
      packet, padded with zeros to 60 bytes. */
  function FrameByte(packet: seq<byte>, next: nat, k: nat): int {
    var n := (if |packet| < 60 then 60 else |packet|) + 4;
    if k == 0 then 1 else if k == 1 then next else if k == 2 then n % 0x100 else if k == 3 then n / 0x100
    else if k - 4 < |packet| then packet[k - 4] else 0
  }

  /** The pages that the frame of a packet takes. */
  function FramePages(packet: seq<byte>): nat {
    ((if |packet| < 60 then 60 else |packet|) + 4 + 255) / 256
  }

  lemma FrameBytes(next: byte, packet: seq<byte>)
    requires |packet| <= MAX_PACKET
    ensures |Frame(next, packet)| == (if |packet| < 60 then 60 else |packet|) + 4
    ensures forall k :: 0 <= k < |Frame(next, packet)| ==> Frame(next, packet)[k] == FrameByte(packet, next, k)
  {
  }

  /** A frame stands in memory from page `page` on: its bytes at their addresses. */
  ghost predicate FrameInMemory(sram: seq<byte>, r: Ring, page: nat, packet: seq<byte>, next: nat) {
    forall k :: 0 <= k < (if |packet| < 60 then 60 else |packet|) + 4 ==>
      var a := RingAddress(r.start, r.stop, page, k);
      0 <= a < |sram| && sram[a] == FrameByte(packet, next, k)
  }

  /** Every changed byte is a byte of the frame. */
  ghost predicate OnlyFrameChanged(before: seq<byte>, after: seq<byte>, r: Ring, page: nat, packet: seq<byte>) {
    && |after| == |before|
    && forall a :: 0 <= a < |before| && after[a] != before[a] ==>
         exists k :: 0 <= k < (if |packet| < 60 then 60 else |packet|) + 4 && RingAddress(r.start, r.stop, page, k) == a
  }

  /** A stopped card, or one in loopback, ignores a packet; one that does not fit raises OVW; any other is stored as its
      frame, moves CURR behind it and raises PRX. */
  ghost predicate ReceivesAs(s: Nic, packet: seq<byte>, t: Nic) {
    var io, f, pages := s.io, s.io.flags, FramePages(packet);
    var free := if io.curr < io.bnry then io.bnry - io.curr else io.ring.stop - io.ring.start - (io.curr - io.bnry);
    if f.cr & 0x01 != 0 || f.tcr & 0x06 != 0 then t == s
    else if pages > free then
      t == s.(io := io.(flags := f.(isr := f.isr | 0x10), irqs := io.irqs + if f.imr & 0x10 != 0 then 1 else 0))
    else
      var end := io.curr + pages;
      var next := if end >= io.ring.stop then end - (io.ring.stop - io.ring.start) else end;
      && next >= 0
      && t.io == io.(curr := next, flags := f.(isr := f.isr | 0x01, rsr := f.rsr | 0x01),
                     needUpdate := io.needUpdate || f.imr & 0x01 != 0, irqs := io.irqs + if f.imr & 0x01 != 0 then 1 else 0)
      && FrameInMemory(t.sram, io.ring, io.curr, packet, next)
      && OnlyFrameChanged(s.sram, t.sram, io.ring, io.curr, packet)
  }

  lemma ReceiveCases(s: Nic, packet: seq<byte>)
    requires Configured(s) && |packet| <= MAX_PACKET
    ensures ReceivesAs(s, packet, Receive(s, packet))
  {
    PagesAre(packet);
    StoppedIs(s.io.flags);
    RaiseIs(s.io, ISR_OVW);
    hide Frame, Padded, Stored, Cyclic, FrameInMemory, OnlyFrameChanged, Occupied, FramePages, Stopped, Raise, Accepted;
    if !Stopped(s.io.flags) && Occupied(packet) <= FreePages(s.io) {
      AcceptedIs(s.io, Next(s.io.ring, s.io.curr, Occupied(packet)));
      AcceptedStands(s, packet);
    }
  }

  lemma PagesAre(packet: seq<byte>)
    ensures FramePages(packet) == Occupied(packet)
  {
    hide Padded;
  }

  lemma StoppedIs(f: Flags)
    ensures Stopped(f) <==> f.cr & 0x01 != 0 || f.tcr & 0x06 != 0
  {
  }

  lemma RaiseIs(io: Io, bit: bv8)
    ensures Raise(io, bit) ==
      io.(flags := io.flags.(isr := io.flags.isr | bit), irqs := io.irqs + if io.flags.imr & bit != 0 then 1 else 0)
  {
    assert bit & io.flags.imr == io.flags.imr & bit;
  }

  lemma AcceptedIs(io: Io, next: nat)
    ensures var f := io.flags;
      && Accepted(io, next).curr == next
      && Accepted(io, next) ==
           io.(curr := next, flags := f.(isr := f.isr | 0x01, rsr := f.rsr | 0x01),
               needUpdate := io.needUpdate || f.imr & 0x01 != 0, irqs := io.irqs + if f.imr & 0x01 != 0 then 1 else 0)
  {
    assert 0x01 & io.flags.imr == io.flags.imr & 0x01;
  }

  /** Whatever the card's state, a packet does exactly that. */
  lemma ReceivesExactly(s: Nic, packet: seq<byte>)
    requires |s.sram| == 0x4000 && 0x40 <= s.io.ring.start < s.io.ring.stop <= 0x80 && |packet| <= 1600
    requires s.io.ring.start <= s.io.curr < s.io.ring.stop && s.io.ring.start <= s.io.bnry < s.io.ring.stop
    ensures Configured(s) && ReceivesAs(s, packet, Receive(s, packet))
  {
    hide ReceivesAs, Receive;
    ReceiveCases(s, packet);
  }

  lemma AcceptedStands(s: Nic, packet: seq<byte>)
    requires Configured(s) && !Stopped(s.io.flags) && |packet| <= MAX_PACKET && Occupied(packet) <= FreePages(s.io)
    ensures var t := Receive(s, packet);
      && FrameInMemory(t.sram, s.io.ring, s.io.curr, packet, t.io.curr)
      && OnlyFrameChanged(s.sram, t.sram, s.io.ring, s.io.curr, packet)
  {
    hide Frame, Padded, Stored, Cyclic, FrameByte, RingAddress;
    ReceiveStores(s, packet);
    FrameBytes(Receive(s, packet).io.curr, packet);
    AllAddresses(s.io.ring, s.io.curr);
  }

  lemma AllAddresses(r: Ring, page: nat)
    requires Fits(r) && InRing(r, page)
    ensures forall k :: 0 <= k < PageCount(r) * PAGE_SIZE ==> Cyclic(r, page, k) == RingAddress(r.start, r.stop, page, k)
  {
  }

  /** A frame stored at CURR extends the chain and leaves every byte of the pages from BNRY to CURR alone. */
  lemma ReceiveExtendsChain(s: Nic, q: seq<seq<byte>>, packet: seq<byte>)
    requires Holds(s, q) && !Stopped(s.io.flags) && |packet| <= MAX_PACKET && Occupied(packet) <= FreePages(s.io)
    ensures var t := Receive(s, packet);
      && Pages(q + [packet]) <= PageCount(s.io.ring)
      && t.io.curr == Next(s.io.ring, s.io.bnry, Pages(q + [packet]))
      && Unrolled(t.sram, s.io.ring, s.io.bnry)[..Pages(q) * PAGE_SIZE]
           == Unrolled(s.sram, s.io.ring, s.io.bnry)[..Pages(q) * PAGE_SIZE]
      && Chain(Unrolled(t.sram, s.io.ring, s.io.bnry), s.io.ring, 0, s.io.bnry, q + [packet])
  {
    hide Frame, Padded, Occupied, Stored, Cyclic, Next, FreePages, Unrolled, Chain;
    FreeIsRest(s, q);
    PagesAppend(q, packet);
    NextAdds(s.io.ring, s.io.bnry, Pages(q), Occupied(packet));
    var t := Receive(s, packet);
    var f := Frame(t.io.curr, packet);
    var v, w := Unrolled(s.sram, s.io.ring, s.io.bnry), Unrolled(t.sram, s.io.ring, s.io.bnry);
    UnrolledFrom(s.sram, s.io.ring, s.io.bnry, Pages(q));
    UnrolledFrom(t.sram, s.io.ring, s.io.bnry, Pages(q));
    StoredReadsBack(s.sram, s.io.ring, s.io.curr, f);
    Unrotate(v, w, Pages(q) * PAGE_SIZE, f);
    ChainPrefix(v, w, s.io.ring, 0, s.io.bnry, q, Pages(q) * PAGE_SIZE);
    ChainAppend(w, s.io.ring, 0, s.io.bnry, q, packet, Pages(q) * PAGE_SIZE, t.io.curr);
  }

  lemma Unrotate(v: seq<byte>, w: seq<byte>, m: nat, f: seq<byte>)
    requires |v| == |w| && m + |f| <= |v|
    requires w[m..] + w[..m] == f + (v[m..] + v[..m])[|f|..]
    ensures w[..m] == v[..m] && w[m..m + |f|] == f
  {
    assert (w[m..] + w[..m])[|v| - m..] == w[..m];
    assert (v[m..] + v[..m])[|v| - m..] == v[..m];
    assert (w[m..] + w[..m])[..|f|] == w[m..m + |f|];
  }

  /** An accepted packet joins the ring's queue exactly when it leaves a free page. */
  lemma ReceiveKeepsRing(s: Nic, q: seq<seq<byte>>, packet: seq<byte>)
    requires Holds(s, q) && !Stopped(s.io.flags) && |packet| <= MAX_PACKET && Occupied(packet) <= FreePages(s.io)
    ensures Holds(Receive(s, packet), q + [packet]) <==> Occupied(packet) < FreePages(s.io)
  {
    hide Stored, Frame, Unrolled, Chain, Next, Occupied, Padded;
    FreeIsRest(s, q);
    PagesAppend(q, packet);
    ReceiveExtendsChain(s, q, packet);
    NextReturns(s.io.ring, s.io.bnry, Pages(q + [packet]));
  }

  /** The oldest unread packet stands at BNRY, whole, and its header leads to the next one. */
  lemma FrontFrame(s: Nic, q: seq<seq<byte>>)
    requires Holds(s, q) && q != []
    ensures |q[0]| <= MAX_PACKET && Occupied(q[0]) < PageCount(s.io.ring)
    ensures var next := Next(s.io.ring, s.io.bnry, Occupied(q[0]));
      && s.sram[Cyclic(s.io.ring, s.io.bnry, 1)] == next
      && Unrolled(s.sram, s.io.ring, s.io.bnry)[..|Padded(q[0])| + 4] == Frame(next, q[0])
  {
    var v := Unrolled(s.sram, s.io.ring, s.io.bnry);
    var n := |Padded(q[0])| + 4;
    assert v[0..0 + n] == v[..n];
    assert v[1] == v[..n][1];
  }

  /** Freeing the oldest packet leaves the ring holding the others. */
  lemma ReleaseTakesFirst(s: Nic, q: seq<seq<byte>>)
    requires Holds(s, q)
    ensures Holds(Release(s), if q == [] then q else q[1..])
    ensures Release(s) == s.(io := s.io.(bnry := Release(s).io.bnry))
  {
    FreeIsRest(s, q);
    if q != [] {
      FrontFrame(s, q);
      RestChain(s, q);
      hide Frame, Padded, Occupied, Cyclic, Next, FreePages, Unrolled, Chain;
      NextAdds(s.io.ring, s.io.bnry, Occupied(q[0]), Pages(q[1..]));
    }
  }

  lemma RestChain(s: Nic, q: seq<seq<byte>>)
    requires Holds(s, q) && q != [] && Occupied(q[0]) <= PageCount(s.io.ring)
    ensures var next := Next(s.io.ring, s.io.bnry, Occupied(q[0]));
      InRing(s.io.ring, next) && Chain(Unrolled(s.sram, s.io.ring, next), s.io.ring, 0, next, q[1..])
  {
    hide Frame, Padded, Occupied, Cyclic, Next, FreePages, Unrolled;
    var n := Occupied(q[0]);
    UnrolledFrom(s.sram, s.io.ring, s.io.bnry, n);
    var v, w := Unrolled(s.sram, s.io.ring, s.io.bnry), Unrolled(s.sram, s.io.ring, Next(s.io.ring, s.io.bnry, n));
    assert (v[n * PAGE_SIZE..] + v[..n * PAGE_SIZE])[..|v| - n * PAGE_SIZE] == v[n * PAGE_SIZE..];
    ChainShift(v, w, s.io.ring, 0, n * PAGE_SIZE, Next(s.io.ring, s.io.bnry, n), q[1..]);
  }

  /** An arrival is taken exactly when it fits, and after it the ring holds the queue exactly when it left a page free. */
  lemma ArrivalHolds(s: Nic, q: seq<seq<byte>>, p: seq<byte>)
    requires Holds(s, q) && !Stopped(s.io.flags) && |p| <= MAX_PACKET
    ensures var size := PageCount(s.io.ring);
      Holds(Receive(s, p), if Occupied(p) <= size - Pages(q) then q + [p] else q) <==> Occupied(p) + Pages(q) != size
  {
    hide Stored, Frame, Unrolled, Chain, Next, Padded, Occupied;
    FreeIsRest(s, q);
    if Occupied(p) <= FreePages(s.io) {
      ReceiveKeepsRing(s, q, p);
    }
  }

  lemma HoldsConfigured(s: Nic, q: seq<seq<byte>>)
    requires Holds(s, q)
    ensures Configured(s)
  {
  }

  /** Byte `a` of the memory is outside the ring's pages. */
  predicate Outside(r: Ring, a: nat) {
    !((r.start - START_PAGE) * PAGE_SIZE <= a < (r.stop - START_PAGE) * PAGE_SIZE)
  }

  /** That is: no byte of the ring stands there. */
  lemma OutsideExactly(r: Ring, a: nat)
    requires 0x40 <= r.start < r.stop <= 0x80
    ensures Outside(r, a) <==> forall k :: 0 <= k < (r.stop - r.start) * 0x100 ==> Cyclic(r, r.start, k) != a
  {
    if !Outside(r, a) {
      assert Cyclic(r, r.start, a - (r.start - START_PAGE) * PAGE_SIZE) == a;
    }
  }

  /** What happens outside the ring, to bytes or to other registers, leaves the queue alone. */
  lemma HoldsElsewhere(s: Nic, t: Nic, q: seq<seq<byte>>)
    requires |s.sram| == |t.sram| == SRAM_SIZE
    requires t.io.ring == s.io.ring && t.io.curr == s.io.curr && t.io.bnry == s.io.bnry
    requires forall a :: 0 <= a < SRAM_SIZE && !Outside(s.io.ring, a) ==> t.sram[a] == s.sram[a]
    ensures Holds(t, q) <==> Holds(s, q)
  {
    hide Chain, Next;
    if Fits(s.io.ring) && InRing(s.io.ring, s.io.bnry) {
      assert Unrolled(t.sram, s.io.ring, s.io.bnry) == Unrolled(s.sram, s.io.ring, s.io.bnry);
    }
  }

  // ---------- Following the links ----------

  /** The page reached from `page` by following the next-page byte of `i` headers. */
  ghost function Walk(sram: seq<byte>, r: Ring, page: nat, i: nat): nat
    requires |sram| == SRAM_SIZE && Fits(r)
    decreases i
  {
    if i == 0 || !InRing(r, page) then page else Walk(sram, r, sram[Cyclic(r, page, 1)], i - 1)
  }

  /** The links from BNRY visit the unread packets in order, each whole, and end at CURR. */
  lemma {:induction false} LinksVisitQueue(s: Nic, q: seq<seq<byte>>, i: nat)
    requires Holds(s, q) && i <= |q|
    ensures var page := Walk(s.sram, s.io.ring, s.io.bnry, i);
      && InRing(s.io.ring, page)
      && (page == s.io.curr <==> i == |q|)
      && (i < |q| ==>
            var next := Walk(s.sram, s.io.ring, s.io.bnry, i + 1);
            var n := |Padded(q[i])| + 4;
            && |q[i]| <= MAX_PACKET && next < 0x100 && n <= PageCount(s.io.ring) * PAGE_SIZE
            && Unrolled(s.sram, s.io.ring, page)[..n] == Frame(next, q[i]))
    decreases i
  {
    hide Frame, Padded, Occupied, Cyclic, Next, Unrolled, Chain;
    FreeIsRest(s, q);
    if i > 0 {
      ReleaseTakesFirst(s, q);
      LinksVisitQueue(Release(s), q[1..], i - 1);
    } else if q != [] {
      FrontFrame(s, q);
      assert Walk(s.sram, s.io.ring, s.io.bnry, 1) == s.sram[Cyclic(s.io.ring, s.io.bnry, 1)];
    }
  }

  /** A packet that fills the ring makes it look empty: the guest sees nothing, and the next packet overwrites the oldest. */
  lemma ExactFillLosesFrames(s: Nic, q: seq<seq<byte>>, packet: seq<byte>, later: seq<byte>)
    requires Holds(s, q) && !Stopped(s.io.flags) && |packet| <= MAX_PACKET && |later| <= MAX_PACKET
    requires Occupied(packet) == FreePages(s.io) && Occupied(later) <= PageCount(s.io.ring)
    ensures var t := Receive(s, packet);
      var n := |Padded(later)| + 4;
      && t.io.curr == t.io.bnry == s.io.bnry && FreePages(t.io) == PageCount(s.io.ring)
      && Release(t) == t
      && Configured(t) && Configured(Receive(t, later))
      && Unrolled(Receive(t, later).sram, s.io.ring, s.io.bnry)[..n] == Frame(Receive(t, later).io.curr, later)
  {
    hide Frame, Padded, Occupied, Cyclic, Unrolled, Chain, Stored;
    FreeIsRest(s, q);
    NextAdds(s.io.ring, s.io.bnry, Pages(q), Occupied(packet));
    var t := Receive(s, packet);
    var u := Receive(t, later);
    StoredReadsBack(t.sram, s.io.ring, s.io.bnry, Frame(u.io.curr, later));
  }
}
