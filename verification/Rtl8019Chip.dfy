/** The RTL8019 as a device: registers and a byte memory updated in place, proved against its step functions. */
module Rtl8019Chip {
  import opened Common
  import opened Rtl8019Ring
  import opened Rtl8019Dma

  /** memcpy */
  method Copy(a: array<byte>, at: nat, data: seq<byte>)
    requires at + |data| <= a.Length
    modifies a
    ensures a[..] == Overlaid(old(a[..]), at, data)
  {
    for i := 0 to |data|
      invariant a[..at + i] == old(a[..])[..at] + data[..i]
      invariant a[at + i..] == old(a[..])[at + i..]
    {
      a[at + i] := data[i];
      assert a[..at + i + 1] == a[..at + i] + [data[i]];
      assert a[at + i + 1..] == old(a[..])[at + i + 1..];
    }
    assert a[..] == a[..at + |data|] + a[at + |data|..];
  }

  lemma CopiedTwice(m: seq<byte>, at: nat, x: seq<byte>, y: seq<byte>)
    requires at + |x| + |y| <= |m|
    ensures Overlaid(Overlaid(m, at, x), at + |x|, y) == Overlaid(m, at, x + y)
  {
  }

  /** A frame that does not pass the ring's end is stored by one copy. */
  lemma StoredStraight(m: seq<byte>, r: Ring, page: nat, data: seq<byte>)
    requires |m| == SRAM_SIZE && Fits(r) && InRing(r, page) && |data| <= (r.stop - page) * PAGE_SIZE
    ensures Overlaid(m, (page - START_PAGE) * PAGE_SIZE, data) == Stored(m, r, page, data)
  {
  }

  /** A frame that passes the ring's end is stored by one copy up to the end and one from the ring's start. */
  lemma StoredWrapped(m: seq<byte>, r: Ring, page: nat, data: seq<byte>)
    requires |m| == SRAM_SIZE && Fits(r) && InRing(r, page)
    requires (r.stop - page) * PAGE_SIZE <= |data| <= PageCount(r) * PAGE_SIZE
    ensures var first := (r.stop - page) * PAGE_SIZE;
      Overlaid(Overlaid(m, (page - START_PAGE) * PAGE_SIZE, data[..first]), (r.start - START_PAGE) * PAGE_SIZE, data[first..])
        == Stored(m, r, page, data)
  {
  }

  class Rtl8019 {
    var io: Io
    const sram: array<byte>

    ghost predicate Valid()
      reads this
    {
      sram.Length == SRAM_SIZE
    }

    ghost function View(): Nic
      reads this, sram
    {
      Nic(io, sram[..])
    }

    constructor (initial: Io)
      ensures Valid() && fresh(sram) && io == initial
      ensures View().sram == seq(SRAM_SIZE, _ => 0)
    {
      io := initial;
      sram := new byte[SRAM_SIZE](_ => 0);
    }

    /** The copies of rtl8019_input: one when the frame ends within the ring, two when it goes round. */
    method Store(next: byte, occupied: nat, header: seq<byte>, buf: seq<byte>, ghost packet: seq<byte>)
      requires Valid() && Configured(View()) && |packet| <= MAX_PACKET && header + buf == Frame(next, packet) && |header| == 4
      requires occupied == Occupied(packet) <= PageCount(io.ring) && next == Next(io.ring, io.curr, occupied)
      modifies sram
      ensures sram[..] == Stored(old(sram[..]), io.ring, io.curr, Frame(next, packet))
    {
      hide Padded, Occupied, Stored, Frame, Overlaid;
      ghost var f := Frame(next, packet);
      var at := (io.curr - START_PAGE) * PAGE_SIZE;
      if next > io.curr || io.curr + occupied == io.ring.stop {
        Copy(sram, at, header);
        Copy(sram, at + 4, buf);
        CopiedTwice(old(sram[..]), at, header, buf);
        StoredStraight(old(sram[..]), io.ring, io.curr, f);
      } else {
        var first := (io.ring.stop - io.curr) * PAGE_SIZE;
        Copy(sram, at, header);
        Copy(sram, at + 4, buf[..first - 4]);
        Copy(sram, (io.ring.start - START_PAGE) * PAGE_SIZE, buf[first - 4..]);
        CopiedTwice(old(sram[..]), at, header, buf[..first - 4]);
        assert f[..first] == header + buf[..first - 4] && f[first..] == buf[first - 4..];
        StoredWrapped(old(sram[..]), io.ring, io.curr, f);
      }
    }

    /** rtl8019_input: a packet from the host goes into the ring, in one copy or in two. */
    method Input(packet: seq<byte>)
      requires Valid() && |packet| <= MAX_PACKET
      requires !Stopped(io.flags) ==> Configured(View())
      modifies this, sram
      ensures Valid() && View() == Receive(old(View()), packet)
    {
      hide Padded, Occupied, Stored, Frame, Overlaid;
      if Stopped(io.flags) {
        return;
      }
      var free := if io.curr < io.bnry then io.bnry - io.curr else io.ring.stop - io.ring.start - (io.curr - io.bnry);
      var buf := Padded(packet);
      var len := |buf| + 4;
      var occupied := (len + 255) / PAGE_SIZE;
      assert occupied == Occupied(packet) by { OccupiedIs(packet); }
      if occupied > free {
        io := Raise(io, ISR_OVW);
        return;
      }
      var next := io.curr + occupied;
      if next >= io.ring.stop {
        next := next - (io.ring.stop - io.ring.start);
      }
      FrameParts(next, packet);
      Store(next, occupied, [1, next, len % 0x100, len / 0x100], buf, packet);
      io := Accepted(io, next);
    }

    /** write_cr */
    method Command(data: bv8, ok: bool)
      requires Valid() && (Transmits(View(), data) ==> TransmitBase(io.dma) + io.dma.tbcr <= sram.Length)
      modifies this
      ensures Valid() && View() == WriteCr(old(View()), data, ok)
    {
      if data & 0x38 == 0 {
        return;
      }
      if Has(data, CMD_XMIT) {
        var f := io.flags.(tsr := 0);
        if Has(io.flags.cr, CMD_STOP) {
          f := f.(tsr := f.tsr | TSR_PTX);
        } else {
          var base := TransmitBase(io.dma);
          io := io.(sent := io.sent + [sram[base..base + io.dma.tbcr]]);
          f := f.(tsr := f.tsr | if ok then TSR_PTX else TSR_COL);
        }
        io := io.(flags := f.(isr := With(f.isr, ISR_PTX)), needUpdate := true);
      }
      if Has(data, CMD_READ) && Has(data, CMD_RUN) {
        io := io.(dma := io.dma.(readOffset := (io.dma.rsar + 0x1_0000 - RAM_BASE) % 0x1_0000, readCount := io.dma.rbcr));
      }
      if Has(data, CMD_WRITE) && Has(data, CMD_RUN) && !Has(data, CMD_NODMA) {
        io := io.(dma := io.dma.(writeOffset := (io.dma.rsar + 0x1_0000_0000 - RAM_BASE) % 0x1_0000_0000,
                                 writeCount := io.dma.rbcr));
      }
      io := io.(flags := io.flags.(cr := data));
    }

    /** remote_write_byte */
    method PutByte(data: byte)
      requires Valid()
      modifies this, sram
      ensures Valid() && View() == RemoteWriteByte(old(View()), data)
    {
      if Has(io.flags.cr, CMD_WRITE) {
        if io.dma.writeOffset >= SRAM_SIZE {
          io := Raise(io, ISR_OVW);
          return;
        }
        sram[io.dma.writeOffset] := data;
        io := io.(dma := io.dma.(writeOffset := io.dma.writeOffset + 1, writeCount := Minus(io.dma.writeCount, 1)));
        if io.dma.writeCount == 0 {
          io := Finish(io, CMD_WRITE);
        }
      }
    }

    /** remote_write_word */
    method PutWord(data: u16)
      requires Valid() && WordSafe(View())
      modifies this, sram
      ensures Valid() && View() == RemoteWriteWord(old(View()), data)
    {
      if Has(io.flags.cr, CMD_WRITE) {
        if io.dma.writeOffset + 1 >= SRAM_SIZE {
          io := Raise(io, ISR_OVW);
          return;
        }
        sram[io.dma.writeOffset] := data % 0x100;
        sram[io.dma.writeOffset + 1] := data / 0x100;
        io := io.(dma := io.dma.(writeOffset := io.dma.writeOffset + 2, writeCount := Minus(io.dma.writeCount, 2)));
        if io.dma.writeCount == 0 {
          io := Finish(io, CMD_WRITE);
        }
      }
    }

    /** remote_read_byte */
    method GetByte() returns (data: byte)
      requires Valid() && (Reading(View()) ==> io.dma.readOffset < SRAM_SIZE)
      modifies this
      ensures Valid() && (View(), data) == RemoteReadByte(old(View()))
    {
      data := 0;
      if Has(io.flags.cr, CMD_READ) {
        data := sram[io.dma.readOffset];
        io := io.(dma := io.dma.(readOffset := io.dma.readOffset + 1, readCount := Minus(io.dma.readCount, 1)));
        if io.dma.readCount == 0 {
          io := Finish(io, CMD_READ);
        }
      }
    }

    /** remote_read_halfword */
    method GetHalfword() returns (data: u16)
      requires Valid() && (Reading(View()) ==> io.dma.readOffset + 1 < SRAM_SIZE)
      modifies this
      ensures Valid() && (View(), data) == RemoteReadHalfword(old(View()))
    {
      data := 0;
      if Has(io.flags.cr, CMD_READ) {
        data := Word(sram[io.dma.readOffset], sram[io.dma.readOffset + 1]);
        io := io.(dma := io.dma.(readOffset := io.dma.readOffset + 2, readCount := Minus(io.dma.readCount, 2)));
        if io.dma.readCount == 0 {
          io := Finish(io, CMD_READ);
        }
      }
    }
  }

  lemma OccupiedIs(packet: seq<byte>)
    ensures Occupied(packet) == (|Padded(packet)| + 4 + 255) / PAGE_SIZE
  {
  }

  lemma FrameParts(next: byte, packet: seq<byte>)
    requires |packet| <= MAX_PACKET
    ensures var n := |Padded(packet)| + 4;
      Frame(next, packet) == [1, next, n % 0x100, n / 0x100] + Padded(packet)
  {
  }
}
