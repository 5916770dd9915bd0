/** The chip as the source keeps it: registers and buffers updated in place, proved against NandFlash. */
module NandChip {
  import opened BitFields
  import opened NandFlash

  /** The commit loop of nandflash_sb_finishwrite. */
  method AndPage(cells: array<bv8>, base: nat, page: array<bv8>)
    requires cells != page && base + page.Length <= cells.Length
    modifies cells
    ensures cells[..] == Anded(old(cells[..]), base, page[..])
  {
    hide And;
    ghost var was := cells[..];
    for i := 0 to page.Length
      invariant forall a :: 0 <= a < cells.Length ==>
        cells[a] == if base <= a < base + i then And(was[a], page[a - base]) else was[a]
    {
      cells[base + i] := And(cells[base + i], page[i]);
    }
  }

  class Chip {
    var iopin: bv8
    var status: bv8
    var cle: Pin
    var ale: Pin
    var ce: Pin
    var we: Pin
    var re: Pin
    var wp: Pin
    var cmd: bv8
    var cmdStatus: CmdStatus
    var ioStatus: IoStatus
    var address: nat
    var pageOffset: nat
    const writeBuffer: array<bv8>
    const addrSpace: array<bv8>

    ghost predicate Valid()
      reads this, writeBuffer, addrSpace
    {
      writeBuffer != addrSpace && Sized(View())
    }

    ghost function View(): Nand
      reads this, writeBuffer, addrSpace
    {
      Nand(iopin, status, cle, ale, ce, we, re, wp, cmd, cmdStatus, ioStatus, address, pageOffset,
           writeBuffer[..], addrSpace[..])
    }

    /** nandflash_sb_poweron, on a mapped dump file. */
    constructor (dump: array<bv8>)
      requires DEVICE_SIZE <= dump.Length
      ensures Valid() && View() == PowerOn(dump[..])
      ensures addrSpace == dump && fresh(writeBuffer)
    {
      addrSpace := dump;
      writeBuffer := new bv8[PAGE_DUMP](_ => 0xFF);
      ale, cle, ce := Low, Low, High;
      iopin, re, we, wp, status := 0, High, High, High, 192;
      pageOffset, address := 0, 0;
      cmd, cmdStatus, ioStatus := READ0, NoStatus, Idle;
    }

    method FillOnes()
      requires Valid()
      modifies writeBuffer
      ensures View() == old(View()).(writeBuffer := Ones(PAGE_DUMP))
    {
      forall i | 0 <= i < writeBuffer.Length {
        writeBuffer[i] := 0xFF;
      }
      assert writeBuffer[..] == Ones(PAGE_DUMP);
    }

    method Reset()
      requires Valid()
      modifies this, writeBuffer
      ensures Valid() && View() == NandFlash.Reset(old(View()))
    {
      FillOnes();
      ale, cle, ioStatus, iopin := Low, Low, Idle, 0;
      re, we, wp, status := High, High, High, 192;
      pageOffset, cmd, cmdStatus := 0, 0, NoStatus;
    }

    method DoErase()
      requires Valid()
      requires wp.High? ==> address - address % ERASE_SIZE + ERASE_SIZE <= addrSpace.Length
      modifies addrSpace
      ensures Valid() && View() == NandFlash.DoErase(old(View()))
    {
      if wp == High {
        var base := address - address % ERASE_SIZE;
        for i := 0 to ERASE_SIZE
          invariant forall a :: 0 <= a < addrSpace.Length ==>
            addrSpace[a] == if base <= a < base + i then 0xFF else old(addrSpace[a])
          invariant writeBuffer[..] == old(writeBuffer[..])
        {
          addrSpace[base + i] := 0xFF;
        }
        assert addrSpace[..] == Erased(old(addrSpace[..]), base);
      }
    }

    method DoDataWrite()
      requires Valid()
      requires wp.High? ==> pageOffset < PAGE_DUMP
      modifies this, writeBuffer
      ensures Valid() && View() == NandFlash.DoDataWrite(old(View()))
    {
      if wp == High {
        writeBuffer[pageOffset] := iopin;
        assert writeBuffer[..] == old(writeBuffer[..])[pageOffset := iopin];
        assert addrSpace[..] == old(addrSpace[..]);
        pageOffset := (pageOffset + 1) % 0x1_0000;
      }
    }

    method FinishWrite()
      requires Valid()
      requires wp.High? ==> address - address % PAGE_DUMP + PAGE_DUMP <= addrSpace.Length
      modifies addrSpace
      ensures Valid() && View() == NandFlash.FinishWrite(old(View()))
    {
      if wp == High {
        AndPage(addrSpace, address - address % PAGE_DUMP, writeBuffer);
      }
    }

    method DoRead()
      requires Valid()
      modifies this
      ensures Valid() && View() == NandFlash.DoRead(old(View()))
    {
      if address < DEVICE_SIZE {
        iopin := addrSpace[address];
        address := address + 1;
        if address % PAGE_DUMP == 0 && cmd == READOOB {
          address := address + PAGE_SIZE;
        }
      }
    }

    method DoReadId()
      requires Valid()
      modifies this
      ensures Valid() && View() == NandFlash.DoReadId(old(View()))
    {
      match cmdStatus
      case ReadId1 => iopin, cmdStatus := ID[0], ReadId2;
      case ReadId2 => iopin, cmdStatus := ID[1], ReadId3;
      case ReadId3 => iopin, cmdStatus := ID[2], ReadId4;
      case ReadId4 => iopin, cmdStatus, ioStatus := ID[3], NoStatus, Idle;
      case _ =>
    }

    /** Command `c` commits inside the mapped file. */
    ghost predicate CommitFits(c: bv8)
      reads this
    {
      && (wp.High? && c == ERASE2 && cmd == ERASE1 && cmdStatus.AddrFinish? ==>
            address - address % ERASE_SIZE + ERASE_SIZE <= addrSpace.Length)
      && (wp.High? && c == PAGEPROG && cmd == SEQIN && cmdStatus.AddrFinish? ==>
            address - address % PAGE_DUMP + PAGE_DUMP <= addrSpace.Length)
    }

    /** What the next latch needs: a commit inside the mapped file, a data byte inside the page buffer. */
    ghost predicate Safe()
      reads this
    {
      && (ioStatus.Cmd? ==> CommitFits(iopin))
      && (ioStatus.DataWrite? && wp.High? ==> pageOffset < PAGE_DUMP)
    }

    method DoCmd()
      requires Valid() && Safe() && ioStatus.Cmd?
      modifies this, writeBuffer, addrSpace
      ensures Valid() && View() == NandFlash.DoCmd(old(View()))
    {
      if iopin == READ0 {
        cmd, cmdStatus, address, ioStatus, pageOffset := READ0, Addr1, 0, Addr, 0;
      } else if iopin == READ1 {
        cmd, cmdStatus, pageOffset, address, ioStatus := READ1, Addr1, 256, 0, Addr;
      } else if iopin == READOOB {
        cmd, cmdStatus, address, pageOffset, ioStatus := READOOB, Addr1, 0, 512, Addr;
      } else if iopin == RESET {
        cmd := RESET;
        Reset();
      } else if iopin == SEQIN {
        FillOnes();
        cmd, cmdStatus, address, ioStatus := SEQIN, Addr1, 0, Addr;
      } else if iopin == ERASE1 {
        cmd, cmdStatus, ioStatus, pageOffset, address := ERASE1, Addr2, Addr, 0, 0;
      } else if iopin == ERASE2 {
        if cmd == ERASE1 && cmdStatus == AddrFinish {
          DoErase();
        }
        cmd := NONE;
      } else if iopin == STATUS {
        cmd, cmdStatus, ioStatus := STATUS, Status, StatusRead;
      } else if iopin == READID {
        cmd, cmdStatus, pageOffset, address, ioStatus := READID, Addr4, 0, 0, Addr;
      } else if iopin == PAGEPROG {
        if cmd == SEQIN && cmdStatus == AddrFinish {
          cmd := PAGEPROG;
          FinishWrite();
        }
      }
    }

    method DoAddr()
      requires Valid()
      modifies this
      ensures Valid() && View() == NandFlash.DoAddr(old(View()))
    {
      hide Val, Or, FullAddress, FullRow;
      var b := Val(iopin);
      match cmdStatus
      case Addr1 =>
        address, pageOffset, cmdStatus := 0, (b + pageOffset) % 0x1_0000, Addr2;
      case Addr2 =>
        address, cmdStatus := Or(address, b * 0x200), Addr3;
      case Addr3 =>
        address, cmdStatus := Or(address, b * 0x2_0000), Addr4;
      case Addr4 =>
        address := FullAddress(FullRow(address, iopin), pageOffset);
        if cmd == READ0 || cmd == READ1 || cmd == READOOB {
          ioStatus := DataRead;
        } else if cmd == SEQIN {
          ioStatus, cmdStatus := DataWrite, AddrFinish;
        } else if cmd == READID {
          ioStatus, cmdStatus := IdRead, ReadId1;
        } else if cmd == ERASE1 {
          ioStatus, cmdStatus := Cmd, AddrFinish;
        }
      case ReadIdAddr =>
        cmdStatus, ioStatus := ReadId1, IdRead;
      case _ =>
    }

    method ReadIO() returns (b: bv8)
      requires Valid()
      ensures ce.Low? ==> b == iopin
    {
      if ce == Low {
        return iopin;
      }
      b := *;
    }

    method WriteIO(b: bv8)
      requires Valid()
      modifies this
      ensures Valid() && View() == Step(old(View()), Op.WriteIO(b))
    {
      if ce == Low {
        iopin := b;
      }
    }

    method SetCE(p: Pin)
      requires Valid()
      modifies this
      ensures Valid() && View() == Step(old(View()), Op.SetCE(p))
    {
      ce := p;
      if p == High && ioStatus == DataRead {
        ioStatus := Idle;
      }
    }

    method SetCLE(p: Pin)
      requires Valid()
      modifies this
      ensures Valid() && View() == Step(old(View()), Op.SetCLE(p))
    {
      cle := p;
      if p == High && ce == Low {
        ioStatus := Cmd;
      }
    }

    method SetALE(p: Pin)
      requires Valid()
      modifies this
      ensures Valid() && View() == Step(old(View()), Op.SetALE(p))
    {
      ale := p;
      if p == High && ce == Low {
        ioStatus := Addr;
      }
    }

    method SetWE(p: Pin)
      requires Valid() && (Latches(View(), Op.SetWE(p)) ==> Safe())
      modifies this, writeBuffer, addrSpace
      ensures Valid() && View() == Step(old(View()), Op.SetWE(p))
    {
      hide NandFlash.DoCmd, NandFlash.DoAddr, NandFlash.DoDataWrite;
      if we == Low && p == High && ce == Low {
        match ioStatus
        case Cmd => DoCmd();
        case Addr => DoAddr();
        case DataWrite => DoDataWrite();
        case _ =>
      }
      we := p;
    }

    method SetRE(p: Pin)
      requires Valid()
      modifies this
      ensures Valid() && View() == Step(old(View()), Op.SetRE(p))
    {
      hide NandFlash.DoRead, NandFlash.DoReadId;
      if re == High && p == Low && ce == Low {
        match ioStatus
        case DataRead => DoRead();
        case IdRead => DoReadId();
        case StatusRead => iopin, ioStatus := status, Idle;
        case _ =>
      }
      re := p;
    }

    method SetWP(p: Pin)
      requires Valid()
      modifies this
      ensures Valid() && View() == Step(old(View()), Op.SetWP(p))
    {
      wp := p;
      if p == Low {
        status := status & 127;
      } else {
        status := status | 128;
      }
    }

    method ReadData() returns (b: bv8)
      requires Valid()
      modifies this
      ensures Valid() && View() == NandFlash.ReadData(old(View()))
      ensures ce.Low? ==> b == ReadByte(old(View()), 0)
    {
      SetRE(Low);
      b := ReadIO();
      SetRE(High);
    }

    method SendCmd(b: bv8)
      requires Valid() && (ce.Low? ==> CommitFits(b))
      modifies this, writeBuffer, addrSpace
      ensures Valid() && View() == NandFlash.SendCmd(old(View()), b)
    {
      Run5(View(), Op.SetCLE(High), Op.SetWE(Low), Op.WriteIO(b), Op.SetWE(High), Op.SetCLE(Low));
      hide Latch, Run;
      SetCLE(High);
      SetWE(Low);
      WriteIO(b);
      SetWE(High);
      SetCLE(Low);
    }

    method SendAddr(b: bv8)
      requires Valid()
      modifies this, writeBuffer, addrSpace
      ensures Valid() && View() == NandFlash.SendAddr(old(View()), b)
    {
      Run5(View(), Op.SetALE(High), Op.SetWE(Low), Op.WriteIO(b), Op.SetWE(High), Op.SetALE(Low));
      hide Latch, Run;
      SetALE(High);
      SetWE(Low);
      WriteIO(b);
      SetWE(High);
      SetALE(Low);
    }

    method SendData(b: bv8)
      requires Valid() && (ioStatus.Cmd? ==> CommitFits(b)) && (ioStatus.DataWrite? && wp.High? ==> pageOffset < PAGE_DUMP)
      modifies this, writeBuffer, addrSpace
      ensures Valid() && View() == NandFlash.SendData(old(View()), b)
    {
      Run3(View(), Op.SetWE(Low), Op.WriteIO(b), Op.SetWE(High));
      hide Latch, Run;
      SetWE(Low);
      WriteIO(b);
      SetWE(High);
    }
  }
}
