/** The 28F128J3A as the source keeps it, proved against IntelFlash. */
module IntelChip {
  import opened IntelFlash

  /** The commit loop: 16 words from `w` on and-ed with their slots. */
  method CommitWords(mem: array<bv32>, w: nat, buf: array<bv32>)
    requires mem != buf && buf.Length == BUFFER_SIZE && w + BUFFER_SIZE <= mem.Length
    modifies mem
    ensures mem[..] == Committed(old(mem[..]), w, buf[..])
  {
    hide And;
    ghost var was := mem[..];
    for j := w to w + BUFFER_SIZE
      invariant forall a :: 0 <= a < mem.Length ==>
        mem[a] == if w <= a < j then And(was[a], buf[a % BUFFER_SIZE]) else was[a]
    {
      mem[j] := And(mem[j], buf[j % BUFFER_SIZE]);
    }
  }

  /** The erase loop: every word of sector `n` set to ones. */
  method EraseWords(mem: array<bv32>, n: nat)
    requires n < SECTORS && CHIP_SIZE / 4 <= mem.Length
    modifies mem
    ensures mem[..] == SectorErased(old(mem[..]), n)
  {
    var first := Word(n * SECTOR_SIZE);
    for i := 0 to Word(SECTOR_SIZE)
      invariant forall a :: 0 <= a < mem.Length ==>
        mem[a] == if first <= a < first + i then ALL_ONES else old(mem[a])
    {
      mem[first + i] := ALL_ONES;
    }
  }

  method AndWord(mem: array<bv32>, w: nat, data: bv32)
    requires w < mem.Length
    modifies mem
    ensures mem[..] == old(mem[..])[w := And(old(mem[..])[w], data)]
  {
    hide And;
    mem[w] := And(mem[w], data);
  }

  /** The scalar members of `struct flash_intel_io`. */
  datatype Io = Io(
    readMode: ReadMode, mode: Mode, vpen: nat,
    programLatchAddr: nat, programLatchData: bv32, progbufLatchAddr: nat, eraseLatchAddr: nat,
    pbCount: nat, pbLoaded: nat, pbStart: nat, act: Activity, err: Errors)

  class Chip {
    var io: Io
    const pbBuf: array<bv32>
    const lock: array<bool>
    const mem: array<bv32>

    ghost function View(): Flash
      reads this, pbBuf, lock, mem
    {
      Flash(io.readMode, io.mode, io.vpen, io.programLatchAddr, io.programLatchData, io.eraseLatchAddr,
            Buffer(io.pbCount, io.pbLoaded, io.pbStart, io.progbufLatchAddr, pbBuf[..]),
            io.act, io.err, lock[..], mem[..])
    }

    ghost predicate Valid()
      reads this, pbBuf, lock, mem
    {
      mem != pbBuf && Sized(View()) && io.progbufLatchAddr < CHIP_SIZE
    }

    /** flash_intel_reset, with the bank that backs the chip. */
    constructor (bank: array<bv32>)
      requires CHIP_SIZE / 4 <= bank.Length
      ensures Valid() && View() == ResetState(bank[..]) && mem == bank
      ensures Quiet(View()) && View().mode.Ready?
    {
      mem := bank;
      lock := new bool[SECTORS](_ => false);
      pbBuf := new bv32[BUFFER_SIZE](_ => ALL_ONES);
      io := Io(ReadArray, Ready, 1, 0, 0, 0, 0, 0, 0, 0, IDLE, NO_ERRORS);
      new;
      ResetQuiet(bank[..]);
      assert pbBuf[..] == Fill(BUFFER_SIZE);
      assert lock[..] == seq(SECTORS, _ => false);
    }

    method InitWsm(data: bv32)
      requires Valid()
      modifies this, pbBuf
      ensures Valid() && View() == Start(old(View()), Low8(data))
    {
      hide Low8;
      var cmd := Low8(data);
      if cmd == READ_ARRAY {
        io := io.(readMode := ReadArray);
      } else if cmd == READ_ID {
        io := io.(readMode := ReadId);
      } else if cmd == READ_STATUS {
        io := io.(readMode := ReadStatus);
      } else if cmd == READ_QUERY {
        io := io.(readMode := ReadQuery);
      } else if cmd == CLEAR_STATUS {
        io := io.(err := NO_ERRORS, readMode := ReadArray);
      } else if cmd == PROGRAM || cmd == PROGRAM2 {
        io := io.(mode := Program);
      } else if cmd == WRITE_BUFFER {
        io := io.(mode := WriteBuffer, readMode := ReadStatus, pbCount := 0, pbLoaded := 0);
        forall i | 0 <= i < pbBuf.Length {
          pbBuf[i] := ALL_ONES;
        }
        assert pbBuf[..] == Fill(BUFFER_SIZE);
      } else if cmd == BLOCK_ERASE {
        io := io.(mode := BlockErase);
      } else if cmd == SUSPEND {
        if io.act.programBusy {
          io := io.(act := io.act.(programSuspended := true));
        } else if io.act.progbufBusy {
          io := io.(act := io.act.(progbufSuspended := true));
        } else if io.act.eraseBusy {
          io := io.(act := io.act.(eraseSuspended := true));
        }
      } else if cmd == RESUME {
        if io.act.programSuspended {
          io := io.(act := io.act.(programSuspended := false));
        } else if io.act.progbufSuspended {
          io := io.(act := io.act.(progbufSuspended := false));
        } else if io.act.eraseSuspended {
          io := io.(act := io.act.(eraseSuspended := false));
        }
      } else if cmd == LOCK_ACCESS {
        io := io.(mode := LockAccess);
      }
    }

    method SetCount(addr: nat, n: nat)
      requires Valid() && addr < CHIP_SIZE && 0 < n
      modifies this
      ensures Valid() && View() == IntelFlash.SetCount(old(View()), addr, n)
    {
      io := io.(pbCount := n, progbufLatchAddr := addr);
      if io.pbCount > BUFFER_SIZE || Sector(addr) != Sector(addr + io.pbCount - 1) {
        io := io.(err := io.err.(programSetlb := true, eraseClearlb := true), mode := Ready);
      }
    }

    method LoadSlot(addr: nat, data: bv32)
      requires Valid() && addr < CHIP_SIZE
      modifies this, pbBuf
      ensures Valid() && View() == IntelFlash.LoadSlot(old(View()), addr, data)
    {
      hide Sector, Word;
      if Sector(addr) != Sector(io.progbufLatchAddr) {
        io := io.(err := io.err.(programSetlb := true, eraseClearlb := true), mode := Ready);
      } else {
        if io.pbLoaded == 0 {
          io := io.(pbStart := addr);
        }
        pbBuf[Word(addr) % BUFFER_SIZE] := data;
        assert mem[..] == old(mem[..]);
        io := io.(pbLoaded := io.pbLoaded + 1);
      }
    }

    /** The tests every command makes before it touches the array or the lock bits. */
    method Check(erasing: bool, locked: bool, suspended: bool) returns (ok: bool)
      modifies this
      ensures ok == Allowed(locked, suspended, io.vpen)
      ensures io == old(io).(err := Verdict(old(io.err), erasing, locked, suspended, old(io.vpen)))
    {
      ok := false;
      if locked {
        io := io.(err := if erasing then io.err.(eraseClearlb := true, protection := true)
                                    else io.err.(programSetlb := true, protection := true));
      } else if suspended {
        io := io.(err := if erasing then io.err.(eraseClearlb := true) else io.err.(programSetlb := true));
      } else if io.vpen != 1 {
        io := io.(err := if erasing then io.err.(eraseClearlb := true, programVolt := true)
                                    else io.err.(programSetlb := true, programVolt := true));
      } else {
        ok := true;
      }
    }

    method CommitBuffer(cmd: nat)
      requires Valid() && Word(io.pbStart) + BUFFER_SIZE <= mem.Length
      modifies this, mem
      ensures Valid() && View() == IntelFlash.CommitBuffer(old(View()), cmd)
    {
      InChipBounds(io.progbufLatchAddr);
      hide Sector, Word, Committed, Verdict, Allowed;
      if cmd == CONFIRM {
        io := io.(act := io.act.(progbufBusy := true), readMode := ReadStatus);
        var ok := Check(false, lock[Sector(io.progbufLatchAddr)], DeviceSuspended(io.act));
        if ok {
          CommitWords(mem, Word(io.pbStart), pbBuf);
          assert pbBuf[..] == old(pbBuf[..]);
        }
        io := io.(mode := Ready, act := io.act.(progbufBusy := false));
      } else {
        io := io.(err := io.err.(programSetlb := true, eraseClearlb := true), mode := Ready);
      }
    }

    method ProgramWord(addr: nat, data: bv32)
      requires Valid() && addr < CHIP_SIZE
      modifies this, mem
      ensures Valid() && View() == IntelFlash.ProgramWord(old(View()), addr, data)
    {
      InChipBounds(addr);
      hide And, Sector, Word, Verdict, Allowed;
      io := io.(act := io.act.(programBusy := true), programLatchAddr := addr, programLatchData := data,
                readMode := ReadStatus);
      var ok := Check(false, lock[Sector(addr)],
                      AddrSuspended(io.act, io.programLatchAddr, io.pbStart, io.pbCount, io.eraseLatchAddr, addr));
      if ok {
        AndWord(mem, Word(addr), data);
        assert pbBuf[..] == old(pbBuf[..]);
      }
      io := io.(act := io.act.(programBusy := false), mode := Ready);
    }

    method EraseSector(addr: nat, data: bv32)
      requires Valid() && addr < CHIP_SIZE
      modifies this, mem
      ensures Valid() && View() == IntelFlash.EraseSector(old(View()), addr, Low8(data))
    {
      InChipBounds(addr);
      hide Low8, Sector, SectorErased, Verdict, Allowed;
      if Low8(data) == CONFIRM {
        io := io.(act := io.act.(eraseBusy := true), eraseLatchAddr := Sector(addr) * SECTOR_SIZE, readMode := ReadStatus);
        var ok := Check(true, lock[Sector(io.eraseLatchAddr)], DeviceSuspended(io.act));
        if ok {
          EraseWords(mem, Sector(io.eraseLatchAddr));
          assert pbBuf[..] == old(pbBuf[..]);
        }
        io := io.(act := io.act.(eraseBusy := false), mode := Ready);
      } else {
        io := io.(mode := Ready);
      }
    }

    method AccessLock(addr: nat, data: bv32)
      requires Valid() && addr < CHIP_SIZE
      modifies this, lock
      ensures Valid() && View() == IntelFlash.AccessLock(old(View()), addr, Low8(data))
    {
      InChipBounds(addr);
      hide Low8, Sector, Verdict, Allowed;
      if Low8(data) == 1 {
        io := io.(act := io.act.(lockBusy := true), readMode := ReadStatus);
        var ok := Check(false, false, DeviceSuspended(io.act));
        if ok {
          lock[Sector(addr)] := true;
        }
        io := io.(act := io.act.(lockBusy := false), mode := Ready);
      } else if Low8(data) == CONFIRM {
        io := io.(act := io.act.(lockBusy := true), readMode := ReadStatus);
        var ok := Check(true, false, DeviceSuspended(io.act));
        if ok {
          forall i | 0 <= i < lock.Length {
            lock[i] := false;
          }
          assert lock[..] == seq(|old(lock[..])|, _ => false);
        }
        io := io.(act := io.act.(lockBusy := false), mode := Ready);
      } else {
        io := io.(mode := Ready);
      }
    }

    /** flash_intel_read_word */
    method ReadWord(addr: nat) returns (data: bv32)
      requires Valid() && addr < CHIP_SIZE
      ensures data == IntelFlash.ReadWord(io.readMode, io.act, io.err, mem[Word(addr)], addr)
    {
      match io.readMode
      case ReadArray =>
        data := mem[Word(addr)];
      case ReadId =>
        var temp := Word(addr) % 2;
        if temp == 0 {
          data := BothChips(MANUFACTURER_CODE);
        } else {
          data := BothChips(DEVICE_CODE);
        }
      case ReadStatus =>
        data := BothChips(Status(io.act, io.err));
      case ReadQuery =>
        var temp := Word(addr % 0x1_0000);
        data := if temp < QUERY_TABLE_SIZE then QueryTable(temp) else 0;
    }

    /** flash_intel_write_word. A commit stays inside the bank. */
    method WriteWord(addr: nat, data: bv32)
      requires Valid() && addr < CHIP_SIZE
      requires io.mode.WriteBuffer? ==> Word(io.pbStart) + BUFFER_SIZE <= mem.Length
      modifies this, pbBuf, lock, mem
      ensures Valid() && View() == Write(old(View()), addr, data)
    {
      hide Low8, Word, Start, IntelFlash.SetCount, IntelFlash.LoadSlot, IntelFlash.CommitBuffer, IntelFlash.ProgramWord,
        IntelFlash.EraseSector, IntelFlash.AccessLock;
      match io.mode
      case Ready => InitWsm(data);
      case WriteBuffer =>
        if io.pbCount == 0 {
          SetCount(addr, Low8(data) + 1);
        } else if io.pbLoaded < io.pbCount {
          LoadSlot(addr, data);
        } else {
          CommitBuffer(Low8(data));
        }
      case Program => ProgramWord(addr, data);
      case BlockErase => EraseSector(addr, data);
      case LockAccess => AccessLock(addr, data);
    }
  }
}
