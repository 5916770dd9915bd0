/** The RTL8019 command register and remote DMA: transfers byte by byte or word by word. */
module Rtl8019Dma {
  import opened Common
  import opened Rtl8019Ring

  /** The card's memory as the guest addresses it starts at its first page. */
  const RAM_BASE := START_PAGE * PAGE_SIZE

  function Without(x: bv8, bit: bv8): bv8 {
    x & !bit
  }

  function Minus(n: u32, k: nat): u32
    requires k <= 2
  {
    (n + 0x1_0000_0000 - k) % 0x1_0000_0000
  }

  /** The end of a transfer: its command bit falls, NODMA and the RDC status rise. */
  function Finish(io: Io, command: bv8): Io {
    Raise(io.(flags := io.flags.(cr := With(Without(io.flags.cr, command), CMD_NODMA))), ISR_RDC)
  }

  function FinishIf(io: Io, command: bv8, count: nat): Io {
    if count == 0 then Finish(io, command) else io
  }

  // ---------- The command register ----------

  function TransmitBase(d: Dma): nat {
    (d.tpsr + 0x100 - START_PAGE) % 0x100 * PAGE_SIZE
  }

  predicate Transmits(s: Nic, data: bv8) {
    data & 0x38 != 0 && Has(data, CMD_XMIT) && !Has(s.io.flags.cr, CMD_STOP)
  }

  /** The transmit command; `ok` is whether the host takes the packet. */
  function Transmit(s: Nic, ok: bool): Io
    requires Has(s.io.flags.cr, CMD_STOP) || TransmitBase(s.io.dma) + s.io.dma.tbcr <= |s.sram|
  {
    var stopped := Has(s.io.flags.cr, CMD_STOP);
    var base := TransmitBase(s.io.dma);
    s.io.(flags := s.io.flags.(tsr := if stopped || ok then TSR_PTX else TSR_COL, isr := With(s.io.flags.isr, ISR_PTX)),
          needUpdate := true,
          sent := if stopped then s.io.sent else s.io.sent + [s.sram[base..base + s.io.dma.tbcr]])
  }

  /** write_cr: the command bits are served in turn, and only then is CR replaced. */
  function WriteCr(s: Nic, data: bv8, ok: bool): (t: Nic)
    requires Transmits(s, data) ==> TransmitBase(s.io.dma) + s.io.dma.tbcr <= |s.sram|
    ensures t.sram == s.sram && t.io.ring == s.io.ring && t.io.curr == s.io.curr && t.io.bnry == s.io.bnry
  {
    if data & 0x38 == 0 then s
    else
      var io1 := if Has(data, CMD_XMIT) then Transmit(s, ok) else s.io;
      var io2 :=
        if Has(data, CMD_READ) && Has(data, CMD_RUN) then
          io1.(dma := io1.dma.(readOffset := (io1.dma.rsar + 0x1_0000 - RAM_BASE) % 0x1_0000, readCount := io1.dma.rbcr))
        else io1;
      var io3 :=
        if Has(data, CMD_WRITE) && Has(data, CMD_RUN) && !Has(data, CMD_NODMA) then
          io2.(dma := io2.dma.(writeOffset := (io2.dma.rsar + 0x1_0000_0000 - RAM_BASE) % 0x1_0000_0000,
                               writeCount := io2.dma.rbcr))
        else io2;
      s.(io := io3.(flags := io3.flags.(cr := data)))
  }

  // ---------- The data port ----------

  predicate Writing(s: Nic) {
    Has(s.io.flags.cr, CMD_WRITE)
  }

  predicate Reading(s: Nic) {
    Has(s.io.flags.cr, CMD_READ)
  }

  function Overflow(s: Nic): Nic {
    s.(io := Raise(s.io, ISR_OVW))
  }

  /** remote_write_byte */
  function RemoteWriteByte(s: Nic, data: byte): (t: Nic)
    requires |s.sram| == SRAM_SIZE
    ensures |t.sram| == SRAM_SIZE
  {
    var d := s.io.dma;
    if !Writing(s) then s
    else if d.writeOffset >= SRAM_SIZE then Overflow(s)
    else
      var n := Minus(d.writeCount, 1);
      Nic(FinishIf(s.io.(dma := d.(writeOffset := d.writeOffset + 1, writeCount := n)), CMD_WRITE, n),
          s.sram[d.writeOffset := data])
  }

  /** The bound check on a word adds one to the offset modulo 2^32, so it misses the last offset. */
  predicate WordSafe(s: Nic) {
    Writing(s) ==> s.io.dma.writeOffset != 0xFFFF_FFFF
  }

  /** remote_write_word */
  function RemoteWriteWord(s: Nic, data: u16): (t: Nic)
    requires |s.sram| == SRAM_SIZE && WordSafe(s)
    ensures |t.sram| == SRAM_SIZE
    ensures WordSafe(t)
  {
    var d := s.io.dma;
    if !Writing(s) then s
    else if d.writeOffset + 1 >= SRAM_SIZE then Overflow(s)
    else
      var n := Minus(d.writeCount, 2);
      Nic(FinishIf(s.io.(dma := d.(writeOffset := d.writeOffset + 2, writeCount := n)), CMD_WRITE, n),
          s.sram[d.writeOffset := data % 0x100][d.writeOffset + 1 := data / 0x100])
  }

  /** remote_read_byte; the card does not check the offset. */
  function RemoteReadByte(s: Nic): (Nic, byte)
    requires |s.sram| == SRAM_SIZE && (Reading(s) ==> s.io.dma.readOffset < SRAM_SIZE)
  {
    var d := s.io.dma;
    if !Reading(s) then (s, 0)
    else
      var n := Minus(d.readCount, 1);
      (s.(io := FinishIf(s.io.(dma := d.(readOffset := d.readOffset + 1, readCount := n)), CMD_READ, n)),
       s.sram[d.readOffset])
  }

  function Word(low: nat, high: nat): nat {
    low + 0x100 * high
  }

  /** remote_read_halfword */
  function RemoteReadHalfword(s: Nic): (Nic, u16)
    requires |s.sram| == SRAM_SIZE && (Reading(s) ==> s.io.dma.readOffset + 1 < SRAM_SIZE)
  {
    var d := s.io.dma;
    if !Reading(s) then (s, 0)
    else
      var n := Minus(d.readCount, 2);
      (s.(io := FinishIf(s.io.(dma := d.(readOffset := d.readOffset + 2, readCount := n)), CMD_READ, n)),
       Word(s.sram[d.readOffset], s.sram[d.readOffset + 1]))
  }

  // ---------- Whole transfers ----------

  function WriteBytes(s: Nic, data: seq<byte>): (t: Nic)
    requires |s.sram| == SRAM_SIZE
    ensures |t.sram| == SRAM_SIZE
    decreases |data|
  {
    if data == [] then s else WriteBytes(RemoteWriteByte(s, data[0]), data[1..])
  }

  function WriteWords(s: Nic, data: seq<u16>): (t: Nic)
    requires |s.sram| == SRAM_SIZE && WordSafe(s)
    ensures |t.sram| == SRAM_SIZE
    decreases |data|
  {
    if data == [] then s else WriteWords(RemoteWriteWord(s, data[0]), data[1..])
  }

  function LowFirst(data: seq<u16>): seq<byte> {
    if data == [] then [] else [data[0] % 0x100, data[0] / 0x100] + LowFirst(data[1..])
  }

  function Min(a: nat, b: nat): nat {
    if a < b then a else b
  }

  /** A transfer in progress with its remaining bytes inside the memory. */
  predicate WriteReady(s: Nic) {
    |s.sram| == SRAM_SIZE && Writing(s) && 0 < s.io.dma.writeCount && s.io.dma.writeOffset + s.io.dma.writeCount <= SRAM_SIZE
  }

  lemma FinishFlags(io: Io, command: bv8)
    requires command == CMD_READ || command == CMD_WRITE
    ensures !Has(Finish(io, command).flags.cr, command) && Has(Finish(io, command).flags.isr, ISR_RDC)
    ensures Has(Finish(io, command).flags.cr, CMD_STOP) == Has(io.flags.cr, CMD_STOP)
  {
  }

  lemma {:induction false} IgnoredBytes(s: Nic, data: seq<byte>)
    requires |s.sram| == SRAM_SIZE && !Writing(s)
    ensures WriteBytes(s, data) == s
  {
    if data != [] {
      IgnoredBytes(s, data[1..]);
    }
  }

  /** The flags after the end of a transfer: its command bit falls, and NODMA and RDC rise. */
  function Ended(f: Flags, command: bv8): Flags {
    f.(cr := (f.cr & !command) | 0x20, isr := f.isr | 0x40)
  }

  /** The interrupts the end of a transfer raises. */
  function EndIrqs(f: Flags): nat {
    if f.imr & 0x40 != 0 then 1 else 0
  }

  lemma FinishIs(io: Io, command: bv8)
    ensures Finish(io, command) == io.(flags := Ended(io.flags, command), irqs := io.irqs + EndIrqs(io.flags))
  {
    assert 0x40 & io.flags.imr == io.flags.imr & 0x40;
  }

  /** What one byte of a transfer does. */
  lemma ByteStored(s: Nic, data: byte)
    requires WriteReady(s)
    ensures var t := RemoteWriteByte(s, data);
      var o, n := s.io.dma.writeOffset, s.io.dma.writeCount;
      && t.sram == s.sram[o := data] && t.io.dma == s.io.dma.(writeOffset := o + 1, writeCount := n - 1)
      && (Writing(t) <==> 1 < n)
      && (Has(t.io.flags.isr, ISR_RDC) <==> n == 1 || Has(s.io.flags.isr, ISR_RDC))
      && t.io.sent == s.io.sent && Has(t.io.flags.cr, CMD_STOP) == Has(s.io.flags.cr, CMD_STOP)
      && t.io.flags == (if n == 1 then Ended(s.io.flags, 0x10) else s.io.flags)
      && t.io.irqs == s.io.irqs + if n == 1 then EndIrqs(s.io.flags) else 0
  {
    hide Has;
    FinishFlags(s.io.(dma := RemoteWriteByte(s, data).io.dma), CMD_WRITE);
    FinishIs(s.io.(dma := RemoteWriteByte(s, data).io.dma), CMD_WRITE);
    hide Finish, Ended, EndIrqs;
  }

  /** A transfer of n bytes stores the first n bytes written, ends exactly at the n-th, and ignores the rest. */
  lemma {:induction false} ByteTransfer(s: Nic, data: seq<byte>)
    requires WriteReady(s)
    ensures var t := WriteBytes(s, data);
      var o, n := s.io.dma.writeOffset, s.io.dma.writeCount;
      var k := Min(|data|, n);
      && t.sram == Overlaid(s.sram, o, data[..k])
      && t.io.dma == s.io.dma.(writeOffset := o + k, writeCount := n - k)
      && (Writing(t) <==> |data| < n)
      && (Has(t.io.flags.isr, ISR_RDC) <==> |data| >= n || Has(s.io.flags.isr, ISR_RDC))
      && t.io.sent == s.io.sent && Has(t.io.flags.cr, CMD_STOP) == Has(s.io.flags.cr, CMD_STOP)
      && t.io.flags == (if |data| < n then s.io.flags else Ended(s.io.flags, 0x10))
      && t.io.irqs == s.io.irqs + if |data| < n then 0 else EndIrqs(s.io.flags)
    decreases |data|
  {
    hide Has, RemoteWriteByte, Writing, Overlaid, Ended, EndIrqs;
    var o, k := s.io.dma.writeOffset, Min(|data|, s.io.dma.writeCount);
    Placed(s.sram, o, data[..k]);
    if data != [] {
      var t := RemoteWriteByte(s, data[0]);
      ByteStored(s, data[0]);
      assert data[..k][1..] == data[1..][..k - 1];
      if s.io.dma.writeCount == 1 {
        IgnoredBytes(t, data[1..]);
      } else {
        ByteTransfer(t, data[1..]);
      }
    }
  }

  /** Memory with `data` over the bytes from `o` on. */
  function Overlaid(m: seq<byte>, o: nat, data: seq<byte>): (r: seq<byte>)
    requires o + |data| <= |m|
    ensures |r| == |m|
  {
    m[..o] + data + m[o + |data|..]
  }

  lemma Placed(m: seq<byte>, o: nat, data: seq<byte>)
    requires o + |data| <= |m|
    ensures data == [] ==> Overlaid(m, o, data) == m
    ensures |data| == 1 ==> Overlaid(m, o, data) == m[o := data[0]]
    ensures data != [] ==> Overlaid(m[o := data[0]], o + 1, data[1..]) == Overlaid(m, o, data)
  {
  }

  // ---------- Words and bytes ----------

  /** With an even count, one word is the two bytes of it. */
  lemma WordIsTwoBytes(s: Nic, data: u16)
    requires |s.sram| == SRAM_SIZE && s.io.dma.writeCount % 2 == 0
    requires Writing(s) ==> s.io.dma.writeOffset + 1 < SRAM_SIZE
    ensures RemoteWriteWord(s, data) == RemoteWriteByte(RemoteWriteByte(s, data % 0x100), data / 0x100)
  {
    hide Has;
  }

  /** A transfer of even length by words is the same transfer by bytes. */
  lemma {:induction false} WordTransfer(s: Nic, data: seq<u16>)
    requires |s.sram| == SRAM_SIZE && s.io.dma.writeCount % 2 == 0 && (Writing(s) ==> WriteReady(s))
    ensures WriteWords(s, data) == WriteBytes(s, LowFirst(data))
    decreases |data|
  {
    hide Has, RemoteWriteByte, RemoteWriteWord, Writing;
    if data != [] {
      WordStep(s, data[0]);
      var bytes := LowFirst(data);
      assert bytes[1..][1..] == LowFirst(data[1..]);
      assert WriteBytes(s, bytes) == WriteBytes(RemoteWriteByte(RemoteWriteByte(s, bytes[0]), bytes[1]), bytes[1..][1..]);
      WordTransfer(RemoteWriteWord(s, data[0]), data[1..]);
    }
  }

  lemma WordStep(s: Nic, data: u16)
    requires |s.sram| == SRAM_SIZE && s.io.dma.writeCount % 2 == 0 && (Writing(s) ==> WriteReady(s))
    ensures var t := RemoteWriteWord(s, data);
      && t == RemoteWriteByte(RemoteWriteByte(s, data % 0x100), data / 0x100)
      && t.io.dma.writeCount % 2 == 0 && (Writing(t) ==> WriteReady(t))
  {
    hide Has, RemoteWriteByte, RemoteWriteWord, Writing;
    var low, high := data % 0x100, data / 0x100;
    WordIsTwoBytes(s, data);
    if Writing(s) {
      ByteStored(s, low);
      ByteStored(RemoteWriteByte(s, low), high);
    } else {
      ByteIgnored(s, low);
      ByteIgnored(s, high);
    }
  }

  lemma ByteIgnored(s: Nic, data: byte)
    requires |s.sram| == SRAM_SIZE && !Writing(s)
    ensures RemoteWriteByte(s, data) == s
  {
  }

  /** A transfer of odd length by words never ends. */
  lemma {:induction false} OddWordsNeverEnd(s: Nic, data: seq<u16>)
    requires |s.sram| == SRAM_SIZE && Writing(s) && WordSafe(s) && s.io.dma.writeCount % 2 == 1
    ensures Writing(WriteWords(s, data))
    ensures Has(WriteWords(s, data).io.flags.isr, ISR_RDC) == Has(s.io.flags.isr, ISR_RDC)
    decreases |data|
  {
    if data != [] {
      OddStays(s, data[0]);
      OddWordsNeverEnd(RemoteWriteWord(s, data[0]), data[1..]);
    }
  }

  lemma OddStays(s: Nic, data: u16)
    requires |s.sram| == SRAM_SIZE && Writing(s) && WordSafe(s) && s.io.dma.writeCount % 2 == 1
    ensures var t := RemoteWriteWord(s, data);
      && Writing(t) && t.io.dma.writeCount % 2 == 1
      && Has(t.io.flags.isr, ISR_RDC) == Has(s.io.flags.isr, ISR_RDC)
  {
    OverflowLeavesRdc(s.io.flags.isr);
  }

  lemma OverflowLeavesRdc(isr: bv8)
    ensures Has(With(isr, ISR_OVW), ISR_RDC) == Has(isr, ISR_RDC)
  {
  }

  /** Word by word, k words finish a transfer of n bytes exactly when n is even and at most 2k. */
  lemma WordsFinish(s: Nic, data: seq<u16>)
    requires WriteReady(s)
    ensures Writing(WriteWords(s, data)) <==> s.io.dma.writeCount % 2 == 1 || 2 * |data| < s.io.dma.writeCount
  {
    hide Has, RemoteWriteWord, WriteWords, WriteBytes;
    if s.io.dma.writeCount % 2 == 1 {
      OddWordsNeverEnd(s, data);
    } else {
      WordTransfer(s, data);
      LowFirstLength(data);
      ByteTransfer(s, LowFirst(data));
    }
  }

  lemma LowFirstLength(data: seq<u16>)
    ensures |LowFirst(data)| == 2 * |data|
  {
  }

  // ---------- Reading ----------

  predicate ReadReady(s: Nic) {
    |s.sram| == SRAM_SIZE && Reading(s) && 0 < s.io.dma.readCount && s.io.dma.readOffset + s.io.dma.readCount <= SRAM_SIZE
  }

  lemma ByteFetched(s: Nic)
    requires ReadReady(s)
    ensures var (t, x) := RemoteReadByte(s);
      var o, n := s.io.dma.readOffset, s.io.dma.readCount;
      && x == s.sram[o] && t.sram == s.sram && t.io.dma == s.io.dma.(readOffset := o + 1, readCount := n - 1)
      && (Reading(t) <==> 1 < n)
      && (Has(t.io.flags.isr, ISR_RDC) <==> n == 1 || Has(s.io.flags.isr, ISR_RDC))
      && t.io.ring == s.io.ring && t.io.curr == s.io.curr && t.io.bnry == s.io.bnry
      && t.io.flags == (if n == 1 then Ended(s.io.flags, 0x08) else s.io.flags)
      && t.io.irqs == s.io.irqs + if n == 1 then EndIrqs(s.io.flags) else 0
  {
    hide Has;
    FinishFlags(s.io.(dma := RemoteReadByte(s).0.io.dma), CMD_READ);
    FinishIs(s.io.(dma := RemoteReadByte(s).0.io.dma), CMD_READ);
    hide Finish, Ended, EndIrqs;
  }

  /** The bytes of `k` reads, each from the card the read before left. */
  function ReadBytes(s: Nic, k: nat): (r: (Nic, seq<byte>))
    requires |s.sram| == SRAM_SIZE && (Reading(s) ==> ReadReady(s))
    ensures r.0.sram == s.sram
    decreases k
  {
    if k == 0 then (s, [])
    else
      var (t, x) := RemoteReadByte(s);
      assert Reading(t) ==> ReadReady(t) by { if Reading(s) { ByteFetched(s); } }
      var (u, rest) := ReadBytes(t, k - 1);
      (u, [x] + rest)
  }

  function Zeros(n: nat): (z: seq<byte>)
    ensures |z| == n
  {
    seq(n, _ => 0)
  }

  /** From `s`, a transfer of n bytes, `k` reads yield the n bytes at its address and then zeros, and end the transfer
      exactly at the n-th. */
  ghost predicate Yields(s: Nic, k: nat, t: Nic, data: seq<byte>)
    requires ReadReady(s)
  {
    var o, n := s.io.dma.readOffset, s.io.dma.readCount;
    && data == s.sram[o..o + Min(k, n)] + Zeros(k - Min(k, n))
    && t.sram == s.sram && t.io.ring == s.io.ring && t.io.curr == s.io.curr && t.io.bnry == s.io.bnry
    && (Reading(t) <==> k < n)
    && (Has(t.io.flags.isr, ISR_RDC) <==> k >= n || Has(s.io.flags.isr, ISR_RDC))
    && t.io.flags == (if k < n then s.io.flags else Ended(s.io.flags, 0x08))
    && t.io.irqs == s.io.irqs + if k < n then 0 else EndIrqs(s.io.flags)
  }

  /** A transfer of n bytes yields the n bytes at its address, ends exactly at the n-th, and then yields zeros. */
  lemma {:induction false} ReadTransfer(s: Nic, k: nat)
    requires ReadReady(s)
    ensures Yields(s, k, ReadBytes(s, k).0, ReadBytes(s, k).1)
    decreases k
  {
    hide Has, RemoteReadByte, Reading, Zeros, ReadBytes, Yields, Min;
    ReadOne(s, k);
    if k == 0 {
      YieldsNone(s);
    } else {
      ByteFetched(s);
      var t := RemoteReadByte(s).0;
      if s.io.dma.readCount == 1 {
        NoReadYieldsZeros(t, k - 1);
        YieldsLast(s, k);
      } else {
        ReadTransfer(t, k - 1);
        YieldsMore(s, k, ReadBytes(t, k - 1).0, ReadBytes(t, k - 1).1);
      }
    }
  }

  lemma YieldsNone(s: Nic)
    requires ReadReady(s)
    ensures Yields(s, 0, s, [])
  {
    hide Has;
    assert s.sram[s.io.dma.readOffset..s.io.dma.readOffset] + Zeros(0) == [];
  }

  lemma YieldsLast(s: Nic, k: nat)
    requires ReadReady(s) && s.io.dma.readCount == 1 && k > 0
    ensures Yields(s, k, RemoteReadByte(s).0, [RemoteReadByte(s).1] + Zeros(k - 1))
  {
    ByteFetched(s);
    hide Has, RemoteReadByte, Reading, Zeros, Ended, EndIrqs;
    FirstFetched(s.sram, s.io.dma.readOffset, 1, k - 1);
  }

  lemma YieldsMore(s: Nic, k: nat, u: Nic, data: seq<byte>)
    requires ReadReady(s) && s.io.dma.readCount > 1 && k > 0
    requires ReadReady(RemoteReadByte(s).0) && Yields(RemoteReadByte(s).0, k - 1, u, data)
    ensures Yields(s, k, u, [RemoteReadByte(s).1] + data)
  {
    var n := s.io.dma.readCount;
    ByteFetched(s);
    hide Has, RemoteReadByte, Reading, Zeros, Ended, EndIrqs;
    FirstFetched(s.sram, s.io.dma.readOffset, Min(k, n), k - Min(k, n));
  }

  lemma ReadOne(s: Nic, k: nat)
    requires ReadReady(s)
    ensures var (t, x) := RemoteReadByte(s);
      && |t.sram| == SRAM_SIZE && (Reading(t) ==> ReadReady(t))
      && ReadBytes(s, k).0 == (if k == 0 then s else ReadBytes(t, k - 1).0)
      && ReadBytes(s, k).1 == (if k == 0 then [] else [x] + ReadBytes(t, k - 1).1)
  {
    ByteFetched(s);
    hide Has, RemoteReadByte, Reading;
  }

  lemma FirstFetched(m: seq<byte>, o: nat, n: nat, z: nat)
    requires 0 < n && o + n <= |m|
    ensures m[o..o + n] + Zeros(z) == [m[o]] + (m[o + 1..o + n] + Zeros(z))
    ensures m[o + 1..o + 1] + Zeros(z) == Zeros(z)
  {
  }

  lemma {:induction false} NoReadYieldsZeros(s: Nic, k: nat)
    requires |s.sram| == SRAM_SIZE && !Reading(s)
    ensures ReadBytes(s, k).0 == s && ReadBytes(s, k).1 == Zeros(k)
    decreases k
  {
    if k > 0 {
      NoReadYieldsZeros(s, k - 1);
      assert [0] + Zeros(k - 1) == Zeros(k);
    }
  }

  /** With an even count, one halfword read is two byte reads, low byte first. */
  lemma HalfwordIsTwoBytes(s: Nic)
    requires ReadReady(s) && s.io.dma.readCount % 2 == 0
    ensures var (t, low) := RemoteReadByte(s);
      ReadReady(t) && RemoteReadHalfword(s) == (RemoteReadByte(t).0, Word(low, RemoteReadByte(t).1))
  {
    ByteFetched(s);
  }

  predicate EvenRead(s: Nic) {
    |s.sram| == SRAM_SIZE && (Reading(s) ==> ReadReady(s) && s.io.dma.readCount % 2 == 0)
  }

  lemma HalfwordStays(s: Nic)
    requires EvenRead(s)
    ensures EvenRead(RemoteReadHalfword(s).0)
    ensures Reading(s) ==> EvenRead(RemoteReadByte(RemoteReadByte(s).0).0) && ReadReady(RemoteReadByte(s).0)
  {
    if Reading(s) {
      HalfwordIsTwoBytes(s);
      ByteFetched(s);
      hide RemoteReadByte, RemoteReadHalfword, Has;
      ByteFetched(RemoteReadByte(s).0);
    }
  }

  /** `k` halfword reads from here stay inside the memory, which the card does not check. */
  predicate ReadsInside(s: Nic, k: nat)
    decreases k
  {
    && |s.sram| == SRAM_SIZE
    && (k == 0 || ((Reading(s) ==> s.io.dma.readOffset + 1 < SRAM_SIZE) && ReadsInside(RemoteReadHalfword(s).0, k - 1)))
  }

  /** The halfwords of `k` reads, each from the card the read before left. */
  function ReadHalfwords(s: Nic, k: nat): (Nic, seq<u16>)
    requires ReadsInside(s, k)
    decreases k
  {
    if k == 0 then (s, [])
    else
      var (t, x) := RemoteReadHalfword(s);
      var (u, rest) := ReadHalfwords(t, k - 1);
      (u, [x] + rest)
  }

  /** A transfer of even length stays inside however often the guest reads: after its end nothing is fetched. */
  lemma {:induction false} EvenReadsInside(s: Nic, k: nat)
    requires EvenRead(s)
    ensures ReadsInside(s, k)
    decreases k
  {
    hide RemoteReadHalfword, Reading;
    if k > 0 {
      HalfwordStays(s);
      EvenReadsInside(RemoteReadHalfword(s).0, k - 1);
    }
  }

  /** A read transfer of even length by halfwords is the same transfer by bytes. */
  lemma {:induction false} HalfwordTransfer(s: Nic, k: nat)
    requires EvenRead(s)
    ensures ReadsInside(s, k)
    ensures ReadHalfwords(s, k).0 == ReadBytes(s, 2 * k).0
    ensures LowFirst(ReadHalfwords(s, k).1) == ReadBytes(s, 2 * k).1
    decreases k
  {
    hide RemoteReadByte, RemoteReadHalfword, Reading;
    EvenReadsInside(s, k);
    if k > 0 {
      HalfwordStays(s);
      HalfwordBytes(s);
      HalfwordTransfer(RemoteReadHalfword(s).0, k - 1);
      var (t, low) := RemoteReadByte(s);
      var (u, high) := RemoteReadByte(t);
      var data := ReadHalfwords(s, k).1;
      assert data == [RemoteReadHalfword(s).1] + ReadHalfwords(u, k - 1).1;
      assert ReadBytes(s, 2 * k).1 == [low] + ([high] + ReadBytes(u, 2 * k - 2).1);
      assert data[1..] == ReadHalfwords(u, k - 1).1;
    }
  }

  /** What one halfword of a transfer of odd length does: the count stays odd, so nothing finishes. */
  lemma OddFetched(s: Nic)
    requires |s.sram| == SRAM_SIZE && Reading(s) && s.io.dma.readCount % 2 == 1 && s.io.dma.readOffset + 1 < SRAM_SIZE
    ensures var (t, x) := RemoteReadHalfword(s);
      var o := s.io.dma.readOffset;
      && x % 0x100 == s.sram[o] && x / 0x100 == s.sram[o + 1] && t.sram == s.sram && Reading(t)
      && t.io.dma.readOffset == o + 2 && t.io.dma.readCount % 2 == 1
      && t.io.flags == s.io.flags && t.io.irqs == s.io.irqs
  {
    hide Has;
  }

  /** A read transfer of odd length by halfwords never ends: it yields bytes from its address on, past its own end. */
  lemma {:induction false} OddHalfwordsNeverEnd(s: Nic, k: nat)
    requires |s.sram| == SRAM_SIZE && Reading(s) && s.io.dma.readCount % 2 == 1 && s.io.dma.readOffset + 2 * k <= SRAM_SIZE
    ensures ReadsInside(s, k)
    ensures var (t, data) := ReadHalfwords(s, k);
      var o := s.io.dma.readOffset;
      && LowFirst(data) == s.sram[o..o + 2 * k]
      && t.io.flags == s.io.flags && t.io.irqs == s.io.irqs
    decreases k
  {
    hide RemoteReadHalfword, Reading, LowFirst, ReadHalfwords;
    if k == 0 {
      NoHalfwords(s);
    } else {
      OddFetched(s);
      var (t, x) := RemoteReadHalfword(s);
      OddHalfwordsNeverEnd(t, k - 1);
      OneHalfword(s, k);
      LowFirstNext(x, ReadHalfwords(t, k - 1).1);
      TwoFetched(s.sram, s.io.dma.readOffset, 2 * k);
    }
  }

  lemma NoHalfwords(s: Nic)
    requires |s.sram| == SRAM_SIZE
    ensures ReadHalfwords(s, 0) == (s, []) && LowFirst([]) == []
  {
  }

  lemma OneHalfword(s: Nic, k: nat)
    requires k > 0 && ReadsInside(s, k)
    ensures var (t, x) := RemoteReadHalfword(s);
      && ReadsInside(t, k - 1) && ReadHalfwords(s, k).0 == ReadHalfwords(t, k - 1).0
      && ReadHalfwords(s, k).1 == [x] + ReadHalfwords(t, k - 1).1
  {
    hide RemoteReadHalfword, Reading;
  }

  lemma LowFirstNext(x: u16, rest: seq<u16>)
    ensures LowFirst([x] + rest) == [x % 0x100, x / 0x100] + LowFirst(rest)
  {
    assert ([x] + rest)[1..] == rest;
  }

  lemma TwoFetched(m: seq<byte>, o: nat, n: nat)
    requires 2 <= n && o + n <= |m|
    ensures m[o..o + n] == [m[o], m[o + 1]] + m[o + 2..o + n]
  {
  }

  /** Halfword by halfword, k reads finish a transfer of n bytes exactly when n is even and at most 2k. */
  lemma HalfwordsFinish(s: Nic, k: nat)
    requires ReadReady(s) && (s.io.dma.readCount % 2 == 1 ==> s.io.dma.readOffset + 2 * k <= SRAM_SIZE)
    ensures ReadsInside(s, k)
    ensures var t := ReadHalfwords(s, k).0;
      && (Reading(t) <==> s.io.dma.readCount % 2 == 1 || 2 * k < s.io.dma.readCount)
      && (Has(t.io.flags.isr, ISR_RDC) <==> !Reading(t) || Has(s.io.flags.isr, ISR_RDC))
  {
    hide Has, RemoteReadHalfword, ReadHalfwords, ReadBytes, ReadsInside;
    if s.io.dma.readCount % 2 == 1 {
      OddHalfwordsNeverEnd(s, k);
    } else {
      HalfwordTransfer(s, k);
      ReadTransfer(s, 2 * k);
    }
  }

  lemma HalfwordBytes(s: Nic)
    requires EvenRead(s)
    ensures var (t, low) := RemoteReadByte(s);
      && |t.sram| == SRAM_SIZE && (Reading(t) ==> ReadReady(t))
      && var (u, high) := RemoteReadByte(t);
         RemoteReadHalfword(s).0 == u && RemoteReadHalfword(s).1 % 0x100 == low && RemoteReadHalfword(s).1 / 0x100 == high
  {
    if Reading(s) {
      HalfwordIsTwoBytes(s);
      hide Has, RemoteReadByte, RemoteReadHalfword, Reading;
    } else {
      NoRead(s);
      hide Has, RemoteReadByte, RemoteReadHalfword, Reading;
    }
  }

  /** Without the read command the data port answers zeros and nothing changes. */
  lemma NoRead(s: Nic)
    requires |s.sram| == SRAM_SIZE && !Reading(s)
    ensures RemoteReadByte(s) == (s, 0) && RemoteReadHalfword(s) == (s, 0)
  {
  }

  /** Past the end of the memory a remote write changes nothing but the overflow status. */
  lemma WritePastEnd(s: Nic, data: u16)
    requires |s.sram| == SRAM_SIZE && s.io.flags.cr & 0x10 != 0 && s.io.dma.writeOffset != 0xffff_ffff
    ensures var f, o := s.io.flags, s.io.dma.writeOffset;
      var refused := s.(io := s.io.(flags := f.(isr := f.isr | 0x10), irqs := s.io.irqs + if f.imr & 0x10 != 0 then 1 else 0));
      && (o >= 0x4000 ==> RemoteWriteByte(s, data % 0x100) == refused)
      && (o + 1 >= 0x4000 ==> RemoteWriteWord(s, data) == refused)
  {
    assert 0x10 & s.io.flags.imr == s.io.flags.imr & 0x10;
  }

  // ---------- Every command byte and every port access, in plain numbers ----------

  /** A transmit goes out from page TPSR; stopped, it does not, but reports success. Starting a read or a write takes
      over address and count. Any other bit only goes into CR, and a command without a DMA bit is ignored. */
  ghost predicate CommandedAs(s: Nic, data: bv8, ok: bool, t: Nic) {
    var io, f, d := s.io, s.io.flags, s.io.dma;
    var base, stopped, sends := (d.tpsr + 0xc0) % 0x100 * 0x100, f.cr & 0x01 != 0, data & 0x04 != 0;
    if data & 0x38 == 0 then t == s
    else
      && (sends && !stopped ==> base + d.tbcr <= |s.sram|)
      && t == s.(io := io.(
           flags := f.(cr := data, isr := if sends then f.isr | 0x02 else f.isr,
                       tsr := if !sends then f.tsr else if stopped || ok then 0x01 else 0x04),
           needUpdate := io.needUpdate || sends,
           sent := if sends && !stopped then io.sent + [s.sram[base..base + d.tbcr]] else io.sent,
           dma := d.(
             readOffset := if data & 0x08 != 0 && data & 0x02 != 0 then (d.rsar + 0xc000) % 0x1_0000 else d.readOffset,
             readCount := if data & 0x08 != 0 && data & 0x02 != 0 then d.rbcr else d.readCount,
             writeOffset := if data & 0x32 == 0x12 then (d.rsar + 0xffff_c000) % 0x1_0000_0000 else d.writeOffset,
             writeCount := if data & 0x32 == 0x12 then d.rbcr else d.writeCount)))
  }

  lemma CommandBits(data: bv8)
    ensures data & 0x32 == 0x12 <==> data & 0x10 != 0 && data & 0x02 != 0 && data & 0x20 == 0
  {
  }

  /** Whatever the card's state, a command does exactly that. */
  lemma CommandsExactly(s: Nic, data: bv8, ok: bool)
    requires data & 0x38 != 0 && data & 0x04 != 0 && s.io.flags.cr & 0x01 == 0 ==>
      (s.io.dma.tpsr + 0xc0) % 0x100 * 0x100 + s.io.dma.tbcr <= |s.sram|
    ensures CommandedAs(s, data, ok, WriteCr(s, data, ok))
  {
    CommandBits(data);
  }

  /** A port access in progress: a byte moves the offset by 1 and a word by 2, the count goes down modulo 2^32, and the
      transfer ends exactly when it reaches 0. */
  lemma PortWrites(s: Nic, data: u16)
    requires |s.sram| == 0x4000 && s.io.flags.cr & 0x10 != 0 && s.io.dma.writeOffset + 1 < 0x4000
    ensures var d, o, n, x := s.io.dma, s.io.dma.writeOffset, s.io.dma.writeCount, data % 0x100;
      var io1 := s.io.(dma := d.(writeOffset := o + 1, writeCount := if n < 1 then 0xffff_ffff else n - 1));
      var io2 := s.io.(dma := d.(writeOffset := o + 2, writeCount := if n < 2 then n + 0xffff_fffe else n - 2));
      && RemoteWriteByte(s, x) == Nic(if n == 1 then EndedIo(io1, 0x10) else io1, s.sram[o := x])
      && RemoteWriteWord(s, data) == Nic(if n == 2 then EndedIo(io2, 0x10) else io2, s.sram[o := x][o + 1 := data / 0x100])
  {
    var d := s.io.dma;
    FinishIs(s.io.(dma := d.(writeOffset := d.writeOffset + 1, writeCount := Minus(d.writeCount, 1))), CMD_WRITE);
    FinishIs(s.io.(dma := d.(writeOffset := d.writeOffset + 2, writeCount := Minus(d.writeCount, 2))), CMD_WRITE);
    hide Finish;
  }

  lemma PortReads(s: Nic)
    requires |s.sram| == 0x4000 && s.io.flags.cr & 0x08 != 0 && s.io.dma.readOffset + 1 < 0x4000
    ensures var d, o, n := s.io.dma, s.io.dma.readOffset, s.io.dma.readCount;
      var low: nat, high: nat := s.sram[o], s.sram[o + 1];
      var io1 := s.io.(dma := d.(readOffset := o + 1, readCount := if n < 1 then 0xffff_ffff else n - 1));
      var io2 := s.io.(dma := d.(readOffset := o + 2, readCount := if n < 2 then n + 0xffff_fffe else n - 2));
      && RemoteReadByte(s) == (s.(io := if n == 1 then EndedIo(io1, 0x08) else io1), low)
      && RemoteReadHalfword(s) == (s.(io := if n == 2 then EndedIo(io2, 0x08) else io2), low + 0x100 * high)
  {
    var d := s.io.dma;
    FinishIs(s.io.(dma := d.(readOffset := d.readOffset + 1, readCount := Minus(d.readCount, 1))), CMD_READ);
    FinishIs(s.io.(dma := d.(readOffset := d.readOffset + 2, readCount := Minus(d.readCount, 2))), CMD_READ);
    hide Finish;
  }

  function EndedIo(io: Io, command: bv8): Io {
    io.(flags := Ended(io.flags, command), irqs := io.irqs + EndIrqs(io.flags))
  }

  // ---------- A driver's round trips ----------

  /** Start a remote read of `n` bytes at `address` and read them. */
  function ReadBlock(s: Nic, address: u16, n: u16, ok: bool): (r: (Nic, seq<byte>))
    requires |s.sram| == SRAM_SIZE && 0x4000 <= address && address - 0x4000 + n <= 0x4000 && n > 0
    ensures r.0.sram == s.sram
  {
    var t := WriteCr(s.(io := s.io.(dma := s.io.dma.(rsar := address, rbcr := n))), 0x0a, ok);
    ReadBytes(t, n)
  }

  lemma BlockReads(s: Nic, address: u16, n: u16, ok: bool)
    requires |s.sram| == SRAM_SIZE && 0x4000 <= address && address - 0x4000 + n <= 0x4000 && n > 0
    ensures var (t, data) := ReadBlock(s, address, n, ok);
      && data == s.sram[address - 0x4000..address - 0x4000 + n]
      && t.sram == s.sram && t.io.ring == s.io.ring && t.io.curr == s.io.curr && t.io.bnry == s.io.bnry
      && !Reading(t) && Has(t.io.flags.isr, ISR_RDC)
  {
    var u := s.(io := s.io.(dma := s.io.dma.(rsar := address, rbcr := n)));
    ReadStarts(u, ok);
    hide WriteCr, ReadBytes, Has;
    ReadTransfer(WriteCr(u, 0x0a, ok), n);
  }

  lemma ReadStarts(s: Nic, ok: bool)
    requires RAM_BASE <= s.io.dma.rsar
    ensures var t := WriteCr(s, 0x0a, ok);
      && Reading(t) && t.io.dma == s.io.dma.(readOffset := s.io.dma.rsar - RAM_BASE, readCount := s.io.dma.rbcr)
  {
  }

  /** Read `n` bytes round the ring from `page`: one remote read, or two when they wrap. */
  function ReadRing(s: Nic, page: nat, n: nat, ok: bool): seq<byte>
    requires |s.sram| == SRAM_SIZE && Fits(s.io.ring) && InRing(s.io.ring, page)
    requires 0 < n <= PageCount(s.io.ring) * PAGE_SIZE
  {
    var first := (s.io.ring.stop - page) * PAGE_SIZE;
    if n <= first then ReadBlock(s, page * PAGE_SIZE, n, ok).1
    else
      var (t, head) := ReadBlock(s, page * PAGE_SIZE, first, ok);
      head + ReadBlock(t, s.io.ring.start * PAGE_SIZE, n - first, ok).1
  }

  lemma BlockData(s: Nic, address: u16, n: u16, ok: bool)
    requires |s.sram| == SRAM_SIZE && 0x4000 <= address && address - 0x4000 + n <= 0x4000 && n > 0
    ensures ReadBlock(s, address, n, ok).1 == s.sram[address - 0x4000..address - 0x4000 + n]
  {
    hide ReadBlock, Reading, Has;
    BlockReads(s, address, n, ok);
  }

  lemma RingReads(s: Nic, page: nat, n: nat, ok: bool)
    requires |s.sram| == SRAM_SIZE && Fits(s.io.ring) && InRing(s.io.ring, page)
    requires 0 < n <= PageCount(s.io.ring) * PAGE_SIZE
    ensures ReadRing(s, page, n, ok) == Unrolled(s.sram, s.io.ring, page)[..n]
  {
    hide ReadRing, Unrolled, Cyclic;
    RingPieces(s, page, n, ok);
    UnrolledPieces(s.sram, s.io.ring, page, n);
  }

  /** What the one or two reads return, as stretches of the memory. */
  lemma RingPieces(s: Nic, page: nat, n: nat, ok: bool)
    requires |s.sram| == SRAM_SIZE && Fits(s.io.ring) && InRing(s.io.ring, page)
    requires 0 < n <= PageCount(s.io.ring) * PAGE_SIZE
    ensures var base, low := (page - START_PAGE) * PAGE_SIZE, (s.io.ring.start - START_PAGE) * PAGE_SIZE;
      var first := (s.io.ring.stop - page) * PAGE_SIZE;
      ReadRing(s, page, n, ok) ==
        if n <= first then s.sram[base..base + n] else s.sram[base..base + first] + s.sram[low..low + n - first]
  {
    hide ReadBlock;
    var r := s.io.ring;
    var first := (r.stop - page) * PAGE_SIZE;
    if n <= first {
      BlockData(s, page * PAGE_SIZE, n, ok);
    } else {
      BlockData(s, page * PAGE_SIZE, first, ok);
      BlockData(ReadBlock(s, page * PAGE_SIZE, first, ok).0, r.start * PAGE_SIZE, n - first, ok);
    }
  }

  /** What the guest reads is the frame of `packet`: status 1, the next page, the length with the header, the packet's
      bytes, and zeros up to 60. */
  ghost predicate IsFrame(data: seq<byte>, packet: seq<byte>) {
    && |data| == (if |packet| < 60 then 60 else |packet|) + 4
    && data[0] == 1 && data[2] == |data| % 0x100 && data[3] == |data| / 0x100
    && (forall i :: 0 <= i < |packet| ==> data[4 + i] == packet[i])
    && (forall i :: |packet| + 4 <= i < |data| ==> data[i] == 0)
  }

  lemma FrameIs(next: byte, packet: seq<byte>)
    requires |packet| <= MAX_PACKET
    ensures IsFrame(Frame(next, packet), packet)
  {
    FrameBytes(next, packet);
    hide Frame, Padded;
    var f := Frame(next, packet);
    forall i | 0 <= i < |packet|
      ensures f[4 + i] == packet[i]
    {
      assert f[4 + i] == FrameByte(packet, next, 4 + i);
    }
  }

  /** The oldest unread frame comes back whole, in one remote read or in two round the ring's end. */
  lemma FrameReadsBack(s: Nic, q: seq<seq<byte>>, ok: bool)
    requires Holds(s, q) && q != []
    ensures |q[0]| <= MAX_PACKET
    ensures var n := |Padded(q[0])| + 4;
      && n <= PageCount(s.io.ring) * PAGE_SIZE
      && ReadRing(s, s.io.bnry, n, ok) == Frame(s.sram[Cyclic(s.io.ring, s.io.bnry, 1)], q[0])
      && IsFrame(ReadRing(s, s.io.bnry, n, ok), q[0])
  {
    hide Frame, Padded, Occupied, Chain, ReadRing, Unrolled, Cyclic, Next;
    FrontFrame(s, q);
    RingReads(s, s.io.bnry, |Padded(q[0])| + 4, ok);
    FrameIs(s.sram[Cyclic(s.io.ring, s.io.bnry, 1)], q[0]);
  }

  /** The front of the ring's bytes is one stretch of memory, or one up to the ring's end and one from its start. */
  lemma UnrolledPieces(sram: seq<byte>, r: Ring, page: nat, n: nat)
    requires |sram| == SRAM_SIZE && Fits(r) && InRing(r, page) && n <= PageCount(r) * PAGE_SIZE
    ensures var base, low := (page - START_PAGE) * PAGE_SIZE, (r.start - START_PAGE) * PAGE_SIZE;
      var first := (r.stop - page) * PAGE_SIZE;
      Unrolled(sram, r, page)[..n] ==
        if n <= first then sram[base..base + n] else sram[base..base + first] + sram[low..low + n - first]
  {
  }

  /** Load `data` at the start of `page` by remote writes, and transmit it. */
  function LoadAndSend(s: Nic, page: byte, data: seq<byte>, ok: bool): (t: Nic)
    requires |s.sram| == SRAM_SIZE && START_PAGE <= page && 0 < |data| && (page - START_PAGE) * PAGE_SIZE + |data| <= SRAM_SIZE
  {
    var s1 := WriteCr(s.(io := s.io.(dma := s.io.dma.(rsar := page * PAGE_SIZE, rbcr := |data|))), 0x12, ok);
    var s2 := WriteBytes(s1, data);
    WriteCr(s2.(io := s2.io.(dma := s2.io.dma.(tpsr := page, tbcr := |data|))), 0x26, ok)
  }

  /** What is loaded by remote DMA is what is sent. */
  lemma LoadedIsSent(s: Nic, page: byte, data: seq<byte>, ok: bool)
    requires |s.sram| == SRAM_SIZE && START_PAGE <= page && 0 < |data| && (page - START_PAGE) * PAGE_SIZE + |data| <= SRAM_SIZE
    ensures var t := LoadAndSend(s, page, data, ok);
      && t.io.sent == s.io.sent + [data]
      && t.io.flags.isr & 0x02 != 0 && t.io.flags.tsr == if ok then 0x01 else 0x04
  {
    var s1 := WriteCr(s.(io := s.io.(dma := s.io.dma.(rsar := page * PAGE_SIZE, rbcr := |data|))), 0x12, ok);
    WriteStarts(s.(io := s.io.(dma := s.io.dma.(rsar := page * PAGE_SIZE, rbcr := |data|))), ok);
    hide WriteCr, WriteBytes, Has;
    ByteTransfer(s1, data);
    var s2 := WriteBytes(s1, data);
    var base := (page - START_PAGE) * PAGE_SIZE;
    assert s2.sram[base..base + |data|] == data;
    SendSends(s2.(io := s2.io.(dma := s2.io.dma.(tpsr := page, tbcr := |data|))), ok);
  }

  lemma WriteStarts(s: Nic, ok: bool)
    requires RAM_BASE <= s.io.dma.rsar
    ensures var t := WriteCr(s, 0x12, ok);
      && t.sram == s.sram && t.io.sent == s.io.sent && Writing(t) && !Has(t.io.flags.cr, CMD_STOP)
      && t.io.dma == s.io.dma.(writeOffset := s.io.dma.rsar - RAM_BASE, writeCount := s.io.dma.rbcr)
  {
  }

  lemma SendSends(s: Nic, ok: bool)
    requires START_PAGE <= s.io.dma.tpsr && !Has(s.io.flags.cr, CMD_STOP)
    requires (s.io.dma.tpsr - START_PAGE) * PAGE_SIZE + s.io.dma.tbcr <= |s.sram|
    ensures var t := WriteCr(s, 0x26, ok);
      var base := (s.io.dma.tpsr - START_PAGE) * PAGE_SIZE;
      && t.io.sent == s.io.sent + [s.sram[base..base + s.io.dma.tbcr]]
      && t.io.flags.isr & 0x02 != 0 && t.io.flags.tsr == if ok then 0x01 else 0x04
  {
  }

  /** A transmit command sends the buffer exactly when the card was already running; stopped, it still reports success. */
  lemma TransmitNeedsRunning(s: Nic, data: bv8, ok: bool)
    requires data & 0x38 != 0 && data & 0x04 != 0
    requires Transmits(s, data) ==> TransmitBase(s.io.dma) + s.io.dma.tbcr <= |s.sram|
    ensures var t := WriteCr(s, data, ok);
      && (|t.io.sent| == |s.io.sent| + 1 <==> s.io.flags.cr & 0x01 == 0)
      && (s.io.flags.cr & 0x01 != 0 ==> t.io.sent == s.io.sent && t.io.flags.tsr == 0x01)
      && t.io.flags.isr == s.io.flags.isr | 0x02 && t.io.needUpdate && t.io.irqs == s.io.irqs
  {
  }
}
