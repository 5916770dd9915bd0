/** The small-block NAND flash chip: a command, address and data machine driven pin by pin. */
module NandFlash {
  import opened BitFields
  import opened Common

  datatype Pin = Low | High

  datatype CmdStatus = NoStatus | Addr1 | Addr2 | Addr3 | Addr4 | AddrFinish | Status
                     | ReadId1 | ReadId2 | ReadId3 | ReadId4 | ReadIdAddr

  datatype IoStatus = Cmd | Addr | DataRead | DataWrite | StatusRead | IdRead | Idle

  const READ0: bv8 := 0x00
  const READ1: bv8 := 0x01
  const PAGEPROG: bv8 := 0x10
  const READOOB: bv8 := 0x50
  const ERASE1: bv8 := 0x60
  const STATUS: bv8 := 0x70
  const SEQIN: bv8 := 0x80
  const READID: bv8 := 0x90
  const ERASE2: bv8 := 0xd0
  const RESET: bv8 := 0xff
  const NONE: bv8 := 0xff

  // K9F1208U0B: 512 + 16 byte pages, 32 pages a block, 4096 blocks
  const PAGE_SIZE := 512
  const PAGE_DUMP := 528
  const ERASE_SIZE := 528 * 32
  const DEVICE_SIZE := 528 * 32 * 4096

  const ID: seq<bv8> := [0xEC, 0x76, 0xA5, 0xC0]

  /** The fields of `nandflash_sb_status`; `cells` is the mapped dump file. */
  datatype Nand = Nand(
    iopin: bv8, status: bv8, cle: Pin, ale: Pin, ce: Pin, we: Pin, re: Pin, wp: Pin,
    cmd: bv8, cmdStatus: CmdStatus, ioStatus: IoStatus, address: nat, pageOffset: nat,
    writeBuffer: seq<bv8>, cells: seq<bv8>)

  ghost predicate Sized(s: Nand) {
    |s.writeBuffer| == PAGE_DUMP && DEVICE_SIZE <= |s.cells| && s.pageOffset < 0x1_0000
  }

  function Ones(n: nat): (r: seq<bv8>)
    ensures |r| == n && forall i :: 0 <= i < n ==> r[i] == 0xFF
  {
    seq(n, _ => 0xFF)
  }

  /** A byte as a number. */
  function Val(b: bv8): (n: nat)
    ensures n < 0x100
  {
    b as int
  }

  /** `cells` with block [base, base + ERASE_SIZE) set to ones. */
  ghost function Erased(cells: seq<bv8>, base: int): (r: seq<bv8>)
    ensures |r| == |cells|
    ensures forall a :: 0 <= a < |cells| ==> r[a] == if base <= a < base + ERASE_SIZE then 0xFF else cells[a]
  {
    seq(|cells|, a requires 0 <= a < |cells| => if base <= a < base + ERASE_SIZE then 0xFF else cells[a])
  }

  function And(x: bv8, y: bv8): bv8 {
    x & y
  }

  /** `cells` with the page at `base` and-ed with a page of data. */
  ghost function Anded(cells: seq<bv8>, base: int, page: seq<bv8>): (r: seq<bv8>)
    ensures |r| == |cells|
    ensures forall a :: 0 <= a < |cells| ==>
      r[a] == if base <= a < base + |page| then And(cells[a], page[a - base]) else cells[a]
  {
    seq(|cells|, a requires 0 <= a < |cells| =>
      if base <= a < base + |page| then And(cells[a], page[a - base]) else cells[a])
  }

  // ---------- One latch ----------

  ghost function Reset(s: Nand): Nand {
    s.(ale := Low, cle := Low, ioStatus := Idle, iopin := 0, re := High, we := High, wp := High,
       status := 192, pageOffset := 0, cmd := 0, cmdStatus := NoStatus, writeBuffer := Ones(PAGE_DUMP))
  }

  ghost function PowerOn(cells: seq<bv8>): Nand {
    Nand(0, 192, Low, Low, High, High, High, High, READ0, NoStatus, Idle, 0, 0, Ones(PAGE_DUMP), cells)
  }

  ghost function DoErase(s: Nand): Nand {
    if s.wp.High? then s.(cells := Erased(s.cells, s.address - s.address % ERASE_SIZE)) else s
  }

  ghost function FinishWrite(s: Nand): Nand
  {
    if s.wp.High? then s.(cells := Anded(s.cells, s.address - s.address % PAGE_DUMP, s.writeBuffer)) else s
  }

  ghost function DoDataWrite(s: Nand): Nand {
    if s.wp.High? then
      s.(writeBuffer := if s.pageOffset < |s.writeBuffer| then s.writeBuffer[s.pageOffset := s.iopin] else s.writeBuffer,
         pageOffset := (s.pageOffset + 1) % 0x1_0000)
    else s
  }

  ghost function DoCmd(s: Nand): Nand
  {
    var c := s.iopin;
    if c == READ0 || c == READ1 || c == READOOB then
      s.(cmd := c, cmdStatus := Addr1, address := 0, ioStatus := Addr,
         pageOffset := if c == READ0 then 0 else if c == READ1 then 256 else 512)
    else if c == RESET then
      Reset(s)
    else if c == SEQIN then
      s.(cmd := c, cmdStatus := Addr1, writeBuffer := Ones(PAGE_DUMP), address := 0, ioStatus := Addr)
    else if c == ERASE1 then
      s.(cmd := c, cmdStatus := Addr2, ioStatus := Addr, pageOffset := 0, address := 0)
    else if c == ERASE2 then
      (if s.cmd == ERASE1 && s.cmdStatus.AddrFinish? then DoErase(s) else s).(cmd := NONE)
    else if c == STATUS then
      s.(cmd := c, cmdStatus := Status, ioStatus := StatusRead)
    else if c == READID then
      s.(cmd := c, cmdStatus := Addr4, pageOffset := 0, address := 0, ioStatus := Addr)
    else if c == PAGEPROG && s.cmd == SEQIN && s.cmdStatus.AddrFinish? then
      FinishWrite(s.(cmd := PAGEPROG))
    else
      s
  }

  /** Byte `off` of row `row`, in the 32 bits of the address register. */
  function FullAddress(row: nat, off: nat): nat {
    (row * 528 + off) % 0x1_0000_0000
  }

  /** The row once the last address byte is in; its top bit falls off the address register. */
  function FullRow(address: nat, b: bv8): nat {
    Or(address, Val(b) % 128 * 0x200_0000) / 512
  }

  ghost function DoAddr(s: Nand): Nand {
    var b := Val(s.iopin);
    match s.cmdStatus
    case Addr1 => s.(address := 0, pageOffset := (b + s.pageOffset) % 0x1_0000, cmdStatus := Addr2)
    case Addr2 => s.(address := Or(s.address, b * 0x200), cmdStatus := Addr3)
    case Addr3 => s.(address := Or(s.address, b * 0x2_0000), cmdStatus := Addr4)
    case Addr4 =>
      var s := s.(address := FullAddress(FullRow(s.address, s.iopin), s.pageOffset));
      if s.cmd == READ0 || s.cmd == READ1 || s.cmd == READOOB then s.(ioStatus := DataRead)
      else if s.cmd == SEQIN then s.(ioStatus := DataWrite, cmdStatus := AddrFinish)
      else if s.cmd == READID then s.(ioStatus := IdRead, cmdStatus := ReadId1)
      else if s.cmd == ERASE1 then s.(ioStatus := Cmd, cmdStatus := AddrFinish)
      else s
    case ReadIdAddr => s.(cmdStatus := ReadId1, ioStatus := IdRead)
    case _ => s
  }

  ghost function DoRead(s: Nand): Nand
  {
    if s.address < DEVICE_SIZE <= |s.cells| then
      var next := s.address + 1;
      s.(iopin := s.cells[s.address],
         address := if next % PAGE_DUMP == 0 && s.cmd == READOOB then next + PAGE_SIZE else next)
    else s
  }

  ghost function DoReadId(s: Nand): Nand {
    match s.cmdStatus
    case ReadId1 => s.(iopin := ID[0], cmdStatus := ReadId2)
    case ReadId2 => s.(iopin := ID[1], cmdStatus := ReadId3)
    case ReadId3 => s.(iopin := ID[2], cmdStatus := ReadId4)
    case ReadId4 => s.(iopin := ID[3], cmdStatus := NoStatus, ioStatus := Idle)
    case _ => s
  }

  // ---------- One pin ----------

  datatype Op = SetCE(p: Pin) | SetCLE(p: Pin) | SetALE(p: Pin) | SetWE(p: Pin) | SetRE(p: Pin) | SetWP(p: Pin)
              | WriteIO(b: bv8)

  ghost predicate Latches(s: Nand, op: Op) {
    op.SetWE? && op.p.High? && s.we.Low? && s.ce.Low?
  }

  /** The rising edge of WE with the chip selected. */
  ghost function Latch(s: Nand): Nand {
    match s.ioStatus
    case Cmd => DoCmd(s)
    case Addr => DoAddr(s)
    case DataWrite => DoDataWrite(s)
    case _ => s
  }

  /** The falling edge of RE with the chip selected. */
  ghost function Fetch(s: Nand): Nand {
    match s.ioStatus
    case DataRead => DoRead(s)
    case IdRead => DoReadId(s)
    case StatusRead => s.(iopin := s.status, ioStatus := Idle)
    case _ => s
  }

  ghost function Step(s: Nand, op: Op): Nand
  {
    match op
    case SetCE(p) => s.(ce := p, ioStatus := if p.High? && s.ioStatus.DataRead? then Idle else s.ioStatus)
    case SetCLE(p) => s.(cle := p, ioStatus := if p.High? && s.ce.Low? then Cmd else s.ioStatus)
    case SetALE(p) => s.(ale := p, ioStatus := if p.High? && s.ce.Low? then Addr else s.ioStatus)
    case SetWE(p) => (if Latches(s, op) then Latch(s) else s).(we := p)
    case SetRE(p) => (if p.Low? && s.re.High? && s.ce.Low? then Fetch(s) else s).(re := p)
    case SetWP(p) => s.(wp := p, status := if p.Low? then s.status & 127 else s.status | 128)
    case WriteIO(b) => if s.ce.Low? then s.(iopin := b) else s
  }

  ghost function Run(s: Nand, ops: seq<Op>): Nand
  {
    if ops == [] then s else Step(Run(s, ops[..|ops| - 1]), ops[|ops| - 1])
  }

  lemma StepSized(s: Nand, op: Op)
    requires Sized(s)
    ensures Sized(Step(s, op)) && |Step(s, op).cells| == |s.cells|
  {
    LatchSized(s);
    FetchKeeps(s);
    hide Latch, Fetch;
  }

  lemma LatchSized(s: Nand)
    requires Sized(s)
    ensures Sized(Latch(s)) && |Latch(s).cells| == |s.cells|
  {
    DoCmdSized(s);
    DoAddrKeeps(s);
    hide DoCmd, DoAddr;
  }

  /** A read changes nothing but the pin register and the read position. */
  lemma FetchKeeps(s: Nand)
    ensures var r := Fetch(s);
      && r == s.(iopin := r.iopin, address := r.address, cmdStatus := r.cmdStatus, ioStatus := r.ioStatus)
      && (r.ioStatus == s.ioStatus || r.ioStatus.Idle?)
      && (!s.ioStatus.DataRead? && !s.ioStatus.IdRead? ==> r.address == s.address && r.cmdStatus == s.cmdStatus)
  {
  }

  lemma DoCmdSized(s: Nand)
    requires Sized(s)
    ensures Sized(DoCmd(s)) && |DoCmd(s).cells| == |s.cells|
  {
  }

  // ---------- What the bus has latched ----------

  datatype Event = CmdLatched(b: bv8) | AddrLatched(b: bv8) | DataLatched(b: bv8)

  /** The bus cycle that `op` completes, if any. */
  ghost function Latched(s: Nand, op: Op): seq<Event> {
    if !Latches(s, op) then []
    else if s.ioStatus.Cmd? then [CmdLatched(s.iopin)]
    else if s.ioStatus.Addr? then [AddrLatched(s.iopin)]
    else if s.ioStatus.DataWrite? then [DataLatched(s.iopin)]
    else []
  }

  ghost function History(s: Nand, ops: seq<Op>): seq<Event> {
    if ops == [] then [] else
    var n := |ops| - 1;
    History(s, ops[..n]) + Latched(Run(s, ops[..n]), ops[n])
  }

  /** The command sequence a history is in: its opening command and the address bytes since. */
  datatype Sequence = Sequence(cmd: Option<bv8>, addrs: seq<bv8>)

  ghost predicate Opens(q: Sequence, c: bv8) {
    || c in {READ0, READ1, READOOB, RESET, SEQIN, ERASE1, ERASE2, STATUS, READID}
    || (c == PAGEPROG && q.cmd == Some(SEQIN) && |q.addrs| >= 4)
  }

  ghost function Extend(q: Sequence, e: Event): Sequence {
    match e
    case CmdLatched(c) => if Opens(q, c) then Sequence(Some(c), []) else q
    case AddrLatched(b) => q.(addrs := q.addrs + [b])
    case DataLatched(_) => q
  }

  ghost function Pending(h: seq<Event>): Sequence {
    if h == [] then Sequence(None, []) else Extend(Pending(h[..|h| - 1]), h[|h| - 1])
  }

  /** The row that three address bytes select; the top bit of the third does not fit the address register. */
  ghost function Row(b0: bv8, b1: bv8, b2: bv8): nat {
    Val(b0) + 0x100 * Val(b1) + 0x1_0000 * (Val(b2) % 128)
  }

  /** `address` lies on the row of `b0`, `b1`, `b2`, or past it by a page offset. */
  ghost predicate OnRow(address: int, b0: bv8, b1: bv8, b2: bv8) {
    exists off: nat :: 0 <= off < 0x1_0000 && address == FullAddress(Row(b0, b1, b2), off)
  }

  ghost predicate EraseCommit(s: Nand, q: Sequence, op: Op) {
    Latched(s, op) == [CmdLatched(ERASE2)] && s.wp.High? && q.cmd == Some(ERASE1) && |q.addrs| >= 3
  }

  ghost predicate ProgramCommit(s: Nand, q: Sequence, op: Op) {
    Latched(s, op) == [CmdLatched(PAGEPROG)] && s.wp.High? && q.cmd == Some(SEQIN) && |q.addrs| >= 4
  }

  /** The block an erase sequence names. */
  ghost function EraseBase(addrs: seq<bv8>): int
    requires |addrs| >= 3
  {
    var a := FullAddress(Row(addrs[0], addrs[1], addrs[2]), 0);
    a - a % ERASE_SIZE
  }

  ghost predicate AddressSoFar(s: Nand, rows: seq<bv8>) {
    match |rows|
    case 0 => s.address == 0 && s.cmdStatus.Addr2?
    case 1 => s.address == Val(rows[0]) * 0x200 && s.cmdStatus.Addr3?
    case 2 => s.address == Val(rows[0]) * 0x200 + Val(rows[1]) * 0x2_0000 && s.cmdStatus.Addr4?
    case _ => OnRow(s.address, rows[0], rows[1], rows[2]) && s.cmdStatus.AddrFinish?
  }

  /** The chip agrees with the history about the sequence it is in. */
  ghost predicate Follows(s: Nand, q: Sequence) {
    && Sized(s)
    && (s.ioStatus.DataWrite? ==> s.cmd == SEQIN)
    && (s.ioStatus.DataRead? || s.ioStatus.IdRead? ==> s.cmd != SEQIN && s.cmd != ERASE1)
    && (s.cmd == SEQIN <==> q.cmd == Some(SEQIN))
    && (s.cmd == ERASE1 <==> q.cmd == Some(ERASE1))
    && (s.cmd == SEQIN ==>
          if q.addrs == [] then s.cmdStatus.Addr1? && s.address == 0 else AddressSoFar(s, q.addrs[1..]))
    && (s.cmd == ERASE1 ==> AddressSoFar(s, q.addrs) && s.pageOffset == 0)
    && (s.cmd == ERASE1 && |q.addrs| >= 3 ==>
          s.address == FullAddress(Row(q.addrs[0], q.addrs[1], q.addrs[2]), 0))
  }

  lemma AddressBytes(b0: bv8, b1: bv8, b2: bv8)
    ensures Or(0, Val(b0) * 0x200) == Val(b0) * 0x200
    ensures Or(Val(b0) * 0x200, Val(b1) * 0x2_0000) == Val(b0) * 0x200 + Val(b1) * 0x2_0000
    ensures FullRow(Val(b0) * 0x200 + Val(b1) * 0x2_0000, b2) == Row(b0, b1, b2)
  {
    OrBytes(Val(b0), Val(b1), Val(b2) % 128);
  }

  lemma RowBits()
    ensures Pow2(17) == 0x2_0000 && Pow2(25) == 0x200_0000
  {
    Pow2Values();
    Pow2Add(16, 1);
    Pow2Add(24, 1);
  }

  lemma OrBytes(b0: nat, b1: nat, b2: nat)
    requires b0 < 0x100 && b1 < 0x100 && b2 < 128
    ensures Or(0, b0 * 0x200) == b0 * 0x200
    ensures Or(b0 * 0x200, b1 * 0x2_0000) == b0 * 0x200 + b1 * 0x2_0000
    ensures Or(b0 * 0x200 + b1 * 0x2_0000, b2 * 0x200_0000) / 512 == b0 + 0x100 * b1 + 0x1_0000 * b2
  {
    RowBits();
    hide Pow2;
    OrDisjoint(b0 * 0x200, b1, 17);
    OrDisjoint(b0 * 0x200 + b1 * 0x2_0000, b2, 25);
    assert b0 * 0x200 + b1 * 0x2_0000 + b2 * 0x200_0000 == 512 * (b0 + 0x100 * b1 + 0x1_0000 * b2);
  }

  lemma AddrStep(s: Nand, rows: seq<bv8>)
    requires s.cmd == SEQIN || s.cmd == ERASE1
    requires AddressSoFar(s, rows) && s.pageOffset < 0x1_0000
    ensures AddressSoFar(DoAddr(s), rows + [s.iopin])
    ensures |rows| == 2 ==> DoAddr(s).address == FullAddress(Row(rows[0], rows[1], s.iopin), s.pageOffset)
    ensures |rows| >= 3 ==> DoAddr(s) == s
  {
    hide Or, FullAddress, FullRow;
    if |rows| == 0 {
      AddressBytes(s.iopin, 0, 0);
    } else if |rows| == 1 {
      AddressBytes(rows[0], s.iopin, 0);
    } else if |rows| == 2 {
      AddressBytes(rows[0], rows[1], s.iopin);
      LastAddress(s, rows[0], rows[1]);
    } else {
      assert (rows + [s.iopin])[..3] == rows[..3];
    }
  }

  lemma LastAddress(s: Nand, b0: bv8, b1: bv8)
    requires s.cmdStatus.Addr4? && (s.cmd == SEQIN || s.cmd == ERASE1)
    requires s.address == Val(b0) * 0x200 + Val(b1) * 0x2_0000 && s.pageOffset < 0x1_0000
    ensures DoAddr(s).address == FullAddress(Row(b0, b1, s.iopin), s.pageOffset)
    ensures DoAddr(s).cmdStatus.AddrFinish? && OnRow(DoAddr(s).address, b0, b1, s.iopin)
  {
    hide Or, FullAddress, FullRow, Row;
    AddressBytes(b0, b1, s.iopin);
  }

  lemma FollowsCmd(s: Nand, q: Sequence)
    requires Follows(s, q) && s.ioStatus.Cmd?
    ensures Follows(DoCmd(s), Extend(q, CmdLatched(s.iopin)))
  {
    DoCmdSized(s);
    hide OnRow, FullAddress, Row, Erased, Anded;
  }

  lemma DoAddrKeeps(s: Nand)
    requires Sized(s)
    ensures Sized(DoAddr(s)) && DoAddr(s).cells == s.cells && DoAddr(s).cmd == s.cmd
    ensures DoAddr(s).pageOffset == if s.cmdStatus.Addr1? then (Val(s.iopin) + s.pageOffset) % 0x1_0000 else s.pageOffset
    ensures DoAddr(s).ioStatus != s.ioStatus && DoAddr(s).ioStatus.DataWrite? ==> s.cmd == SEQIN
    ensures DoAddr(s).ioStatus.DataRead? || DoAddr(s).ioStatus.IdRead? ==>
      DoAddr(s).ioStatus == s.ioStatus || (s.cmd != SEQIN && s.cmd != ERASE1) || s.cmdStatus.ReadIdAddr?
  {
    hide Or, FullAddress, FullRow;
    match s.cmdStatus {
      case Addr1 =>
      case Addr4 =>
      case _ =>
    }
  }

  lemma FollowsAddr(s: Nand, q: Sequence)
    requires Follows(s, q)
    ensures Follows(DoAddr(s), Extend(q, AddrLatched(s.iopin)))
  {
    DoAddrKeeps(s);
    hide FullAddress, Row, Or, OnRow;
    if s.cmd == SEQIN {
      if q.addrs == [] {
      } else {
        hide DoAddr;
        AddrStep(s, q.addrs[1..]);
        assert (q.addrs + [s.iopin])[1..] == q.addrs[1..] + [s.iopin];
      }
    } else if s.cmd == ERASE1 {
      hide DoAddr;
      AddrStep(s, q.addrs);
    } else {
      hide DoAddr;
    }
  }

  lemma FollowsStep(s: Nand, q: Sequence, op: Op)
    requires Follows(s, q)
    ensures Follows(Step(s, op), Pended(q, Latched(s, op)))
  {
    hide OnRow, FullAddress, Row, Latch, Fetch, Extend;
    if Latches(s, op) {
      FollowsLatch(s, q, op);
    } else {
      FetchKeeps(s);
    }
  }

  lemma FollowsLatch(s: Nand, q: Sequence, op: Op)
    requires Follows(s, q) && Latches(s, op)
    ensures Follows(Latch(s), Pended(q, Latched(s, op)))
  {
    hide OnRow, FullAddress, Row, DoCmd, DoAddr;
    if s.ioStatus.Cmd? {
      FollowsCmd(s, q);
      hide Extend;
    } else if s.ioStatus.Addr? {
      FollowsAddr(s, q);
      hide Extend;
    }
  }

  ghost function Pended(q: Sequence, es: seq<Event>): Sequence {
    if es == [] then q else Extend(q, es[0])
  }

  /** The array changes at the two commits of the command set and nowhere else. */
  lemma StepEffect(s: Nand, q: Sequence, op: Op)
    requires Follows(s, q)
    ensures EraseCommit(s, q, op) ==> Step(s, op).cells == Erased(s.cells, EraseBase(q.addrs))
    ensures ProgramCommit(s, q, op) ==>
      && Step(s, op).cells == Anded(s.cells, s.address - s.address % PAGE_DUMP, s.writeBuffer)
      && OnRow(s.address, q.addrs[1], q.addrs[2], q.addrs[3])
    ensures !EraseCommit(s, q, op) && !ProgramCommit(s, q, op) ==> Step(s, op).cells == s.cells
  {
    hide DoCmd, DoAddr, Fetch, OnRow, FullAddress, Row, Erased, Anded;
    FetchKeeps(s);
    DoAddrKeeps(s);
    if s.ioStatus.Cmd? {
      CmdEffect(s, q);
      hide Follows;
    }
  }

  lemma CmdEffect(s: Nand, q: Sequence)
    requires Follows(s, q)
    ensures var commits := s.wp.High? && q.cmd == Some(ERASE1) && |q.addrs| >= 3;
      s.iopin == ERASE2 && commits ==> DoCmd(s).cells == Erased(s.cells, EraseBase(q.addrs))
    ensures var commits := s.wp.High? && q.cmd == Some(SEQIN) && |q.addrs| >= 4;
      s.iopin == PAGEPROG && commits ==>
        && DoCmd(s).cells == Anded(s.cells, s.address - s.address % PAGE_DUMP, s.writeBuffer)
        && OnRow(s.address, q.addrs[1], q.addrs[2], q.addrs[3])
    ensures
      || (s.iopin == ERASE2 && s.wp.High? && q.cmd == Some(ERASE1) && |q.addrs| >= 3)
      || (s.iopin == PAGEPROG && s.wp.High? && q.cmd == Some(SEQIN) && |q.addrs| >= 4)
      || DoCmd(s).cells == s.cells
  {
    hide OnRow, FullAddress, Row, Erased, Anded;
  }

  // ---------- Every run from power-on ----------

  ghost function StateAt(cells: seq<bv8>, ops: seq<Op>, k: nat): Nand
    requires k <= |ops|
  {
    Run(PowerOn(cells), ops[..k])
  }

  ghost function PendingAt(cells: seq<bv8>, ops: seq<Op>, k: nat): Sequence
    requires k <= |ops|
  {
    Pending(History(PowerOn(cells), ops[..k]))
  }

  lemma PendingNext(cells: seq<bv8>, ops: seq<Op>, k: nat)
    requires k < |ops|
    ensures StateAt(cells, ops, k + 1) == Step(StateAt(cells, ops, k), ops[k])
    ensures PendingAt(cells, ops, k + 1) == Pended(PendingAt(cells, ops, k), Latched(StateAt(cells, ops, k), ops[k]))
  {
    hide Step, Extend, Latched, PowerOn;
    assert ops[..k + 1][..k] == ops[..k];
    var s := StateAt(cells, ops, k);
    var h, es := History(PowerOn(cells), ops[..k]), Latched(s, ops[k]);
    assert |es| <= 1 by { LatchedOnce(s, ops[k]); }
    if |es| == 1 {
      assert (h + es)[..|h + es| - 1] == h;
    } else {
      assert h + es == h;
    }
  }

  lemma LatchedOnce(s: Nand, op: Op)
    ensures |Latched(s, op)| <= 1
  {
  }

  lemma {:induction false} RunFollows(cells: seq<bv8>, ops: seq<Op>, k: nat)
    requires DEVICE_SIZE <= |cells| && k <= |ops|
    ensures Follows(StateAt(cells, ops, k), PendingAt(cells, ops, k))
    ensures |StateAt(cells, ops, k).cells| == |cells|
  {
    if k != 0 {
      RunFollows(cells, ops, k - 1);
      PendingNext(cells, ops, k - 1);
      FollowsStep(StateAt(cells, ops, k - 1), PendingAt(cells, ops, k - 1), ops[k - 1]);
      StepSized(StateAt(cells, ops, k - 1), ops[k - 1]);
      hide Step, StateAt, PendingAt, Follows;
    }
  }

  /** Step `k` is an ERASE2 that completes ERASE1 and three address bytes naming the block of byte `a`. */
  ghost predicate ErasesByte(cells: seq<bv8>, ops: seq<Op>, k: nat, a: nat)
    requires k < |ops|
  {
    var s, q := StateAt(cells, ops, k), PendingAt(cells, ops, k);
    EraseCommit(s, q, ops[k]) && EraseBase(q.addrs) <= a < EraseBase(q.addrs) + ERASE_SIZE
  }

  /** Step `k` is a PAGEPROG that completes SEQIN and four address bytes and reaches the page of byte `a`. */
  ghost predicate ProgramsByte(cells: seq<bv8>, ops: seq<Op>, k: nat, a: nat)
    requires k < |ops|
  {
    var s, q := StateAt(cells, ops, k), PendingAt(cells, ops, k);
    && ProgramCommit(s, q, ops[k])
    && OnRow(s.address, q.addrs[1], q.addrs[2], q.addrs[3])
    && s.address / PAGE_DUMP == a / PAGE_DUMP
  }

  /** Some bit is clear in `x` and set in `y`. */
  ghost predicate Rises(x: bv8, y: bv8) {
    y & !x != 0
  }

  lemma RisesFacts(x: bv8, y: bv8, z: bv8)
    ensures !Rises(x, x) && !Rises(x, x & y) && !Rises(0xFF, x)
    ensures Rises(x, z) ==> Rises(x, y) || Rises(y, z)
  {
  }

  /** One step: a bit rises only in an erased block and falls only in a programmed page. */
  lemma StepBits(cells: seq<bv8>, ops: seq<Op>, k: nat, a: nat)
    requires DEVICE_SIZE <= |cells| && k < |ops| && a < |cells|
    ensures |StateAt(cells, ops, k).cells| == |StateAt(cells, ops, k + 1).cells| == |cells|
    ensures Rises(StateAt(cells, ops, k).cells[a], StateAt(cells, ops, k + 1).cells[a]) ==> ErasesByte(cells, ops, k, a)
    ensures Rises(StateAt(cells, ops, k + 1).cells[a], StateAt(cells, ops, k).cells[a]) ==> ProgramsByte(cells, ops, k, a)
  {
    RunFollows(cells, ops, k);
    RunFollows(cells, ops, k + 1);
    PendingNext(cells, ops, k);
    StepEffect(StateAt(cells, ops, k), PendingAt(cells, ops, k), ops[k]);
    var s, q := StateAt(cells, ops, k), PendingAt(cells, ops, k);
    hide StateAt, PendingAt, Step, OnRow, EraseBase, Rises, Latched;
    RisesFacts(s.cells[a], 0, 0);
    if ProgramCommit(s, q, ops[k]) {
      var base := s.address - s.address % PAGE_DUMP;
      if base <= a < base + PAGE_DUMP {
        RisesFacts(s.cells[a], s.writeBuffer[a - base], 0);
      }
    }
  }

  /** In every run, a bit that goes from 0 to 1 was erased on the way: ERASE1, three addresses, ERASE2. */
  lemma {:induction false} BitsRiseOnlyByErase(cells: seq<bv8>, ops: seq<Op>, i: nat, j: nat, a: nat)
    requires DEVICE_SIZE <= |cells| && i <= j <= |ops| && a < |cells|
    ensures |StateAt(cells, ops, i).cells| == |StateAt(cells, ops, j).cells| == |cells|
    ensures Rises(StateAt(cells, ops, i).cells[a], StateAt(cells, ops, j).cells[a]) ==>
      exists k :: i <= k < j && ErasesByte(cells, ops, k, a)
  {
    hide *;
    RunFollows(cells, ops, i);
    RunFollows(cells, ops, j);
    if i == j {
      RisesFacts(StateAt(cells, ops, i).cells[a], 0, 0);
    } else {
      BitsRiseOnlyByErase(cells, ops, i, j - 1, a);
      StepBits(cells, ops, j - 1, a);
      RisesFacts(StateAt(cells, ops, i).cells[a], StateAt(cells, ops, j - 1).cells[a], StateAt(cells, ops, j).cells[a]);
    }
  }

  /** In every run, a bit that goes from 1 to 0 was programmed on the way: SEQIN, four addresses, PAGEPROG. */
  lemma {:induction false} BitsFallOnlyByProgram(cells: seq<bv8>, ops: seq<Op>, i: nat, j: nat, a: nat)
    requires DEVICE_SIZE <= |cells| && i <= j <= |ops| && a < |cells|
    ensures |StateAt(cells, ops, i).cells| == |StateAt(cells, ops, j).cells| == |cells|
    ensures Rises(StateAt(cells, ops, j).cells[a], StateAt(cells, ops, i).cells[a]) ==>
      exists k :: i <= k < j && ProgramsByte(cells, ops, k, a)
  {
    hide *;
    RunFollows(cells, ops, i);
    RunFollows(cells, ops, j);
    if i == j {
      RisesFacts(StateAt(cells, ops, i).cells[a], 0, 0);
    } else {
      BitsFallOnlyByProgram(cells, ops, i, j - 1, a);
      StepBits(cells, ops, j - 1, a);
      RisesFacts(StateAt(cells, ops, j).cells[a], StateAt(cells, ops, j - 1).cells[a], StateAt(cells, ops, i).cells[a]);
    }
  }

  ghost predicate CommitsAt(cells: seq<bv8>, ops: seq<Op>, k: nat)
    requires k < |ops|
  {
    var s, q := StateAt(cells, ops, k), PendingAt(cells, ops, k);
    EraseCommit(s, q, ops[k]) || ProgramCommit(s, q, ops[k])
  }

  /** A sequence commits at most once: between two commits a new ERASE1 or SEQIN is latched. */
  lemma OneCommitPerSequence(cells: seq<bv8>, ops: seq<Op>, k: nat, l: nat)
    requires DEVICE_SIZE <= |cells| && k < l < |ops|
    requires CommitsAt(cells, ops, k) && CommitsAt(cells, ops, l)
    ensures exists m :: k < m < l && OpensAt(cells, ops, m)
  {
    hide *;
    CommitCloses(cells, ops, k);
    CommitInSequence(cells, ops, l);
    StaysClosed(cells, ops, k + 1, l);
  }

  lemma CommitInSequence(cells: seq<bv8>, ops: seq<Op>, k: nat)
    requires k < |ops| && CommitsAt(cells, ops, k)
    ensures InSequence(PendingAt(cells, ops, k))
  {
    hide StateAt, PendingAt, Latched;
  }

  lemma CommitCloses(cells: seq<bv8>, ops: seq<Op>, k: nat)
    requires k < |ops| && CommitsAt(cells, ops, k)
    ensures !InSequence(PendingAt(cells, ops, k + 1))
  {
    PendingNext(cells, ops, k);
    hide StateAt, PendingAt, Latched, Step;
  }

  ghost predicate InSequence(q: Sequence) {
    q.cmd == Some(SEQIN) || q.cmd == Some(ERASE1)
  }

  ghost predicate OpensAt(cells: seq<bv8>, ops: seq<Op>, m: nat)
    requires m < |ops|
  {
    var es := Latched(StateAt(cells, ops, m), ops[m]);
    es == [CmdLatched(SEQIN)] || es == [CmdLatched(ERASE1)]
  }

  lemma {:induction false} StaysClosed(cells: seq<bv8>, ops: seq<Op>, i: nat, j: nat)
    requires i <= j < |ops| && !InSequence(PendingAt(cells, ops, i))
    ensures InSequence(PendingAt(cells, ops, j)) ==> exists m :: i <= m < j && OpensAt(cells, ops, m)
  {
    hide *;
    if i < j {
      StaysClosed(cells, ops, i, j - 1);
      if !InSequence(PendingAt(cells, ops, j - 1)) {
        ClosedStep(cells, ops, j - 1);
      }
    }
  }

  lemma ClosedStep(cells: seq<bv8>, ops: seq<Op>, k: nat)
    requires k < |ops| && !InSequence(PendingAt(cells, ops, k))
    ensures InSequence(PendingAt(cells, ops, k + 1)) ==> OpensAt(cells, ops, k)
  {
    PendingNext(cells, ops, k);
    LatchedOnce(StateAt(cells, ops, k), ops[k]);
    hide StateAt, PendingAt, Latched, Step;
  }

  /** While WP is low, and stays low, no sequence of pin changes alters the array. */
  lemma {:induction false} WriteProtectHolds(s: Nand, ops: seq<Op>)
    requires s.wp.Low?
    requires forall k :: 0 <= k < |ops| ==> ops[k] != SetWP(High)
    requires forall k :: 0 <= k < |ops| ==> Latched(Run(s, ops[..k]), ops[k]) != [CmdLatched(RESET)]
    ensures Run(s, ops).cells == s.cells && Run(s, ops).wp.Low?
  {
    if ops != [] {
      var n := |ops| - 1;
      forall k | 0 <= k < n
        ensures Latched(Run(s, ops[..n][..k]), ops[..n][k]) != [CmdLatched(RESET)]
      {
        assert ops[..n][..k] == ops[..k];
      }
      WriteProtectHolds(s, ops[..n]);
      ProtectedStep(Run(s, ops[..n]), ops[n]);
    }
  }

  /** Over every run that leaves the WP pin alone, WP stays low exactly as long as no RESET command is latched. */
  lemma {:induction false} WriteProtectExactly(s: Nand, ops: seq<Op>)
    requires s.wp.Low? && forall k :: 0 <= k < |ops| ==> ops[k] != SetWP(High)
    ensures (forall k :: 0 <= k <= |ops| ==> Run(s, ops[..k]).wp.Low?)
      <==> forall k :: 0 <= k < |ops| ==> Latched(Run(s, ops[..k]), ops[k]) != [CmdLatched(RESET)]
    decreases |ops|
  {
    hide Run, Latched, Step;
    if ops == [] {
      assert ops[..0] == [];
      Run0(s);
    } else {
      var n := |ops| - 1;
      WriteProtectExactly(s, ops[..n]);
      assert forall k :: 0 <= k <= n ==> ops[..n][..k] == ops[..k];
      assert ops[..n + 1] == ops;
      RunMore(s, ops[..n], ops[n]);
      assert ops[..n] + [ops[n]] == ops;
      var t := Run(s, ops[..n]);
      if t.wp.Low? {
        if Latched(t, ops[n]) == [CmdLatched(RESET)] {
          ResetRaises(t, ops[n]);
        } else {
          ProtectedStep(t, ops[n]);
        }
      }
    }
  }

  lemma Run0(s: Nand)
    ensures Run(s, []) == s
  {
  }

  lemma ResetRaises(s: Nand, op: Op)
    requires Latched(s, op) == [CmdLatched(RESET)]
    ensures Step(s, op).wp.High?
  {
    hide DoAddr, DoRead, DoReadId;
  }

  lemma ProtectedStep(s: Nand, op: Op)
    requires s.wp.Low? && op != SetWP(High) && Latched(s, op) != [CmdLatched(RESET)]
    ensures Step(s, op).cells == s.cells && Step(s, op).wp.Low?
  {
    FetchKeeps(s);
    hide Fetch, DoAddr, DoCmd;
    ProtectedAddr(s);
    if Latches(s, op) && s.ioStatus.Cmd? {
      ProtectedCmd(s);
    }
  }

  lemma ProtectedCmd(s: Nand)
    requires s.wp.Low? && s.iopin != RESET
    ensures DoCmd(s).cells == s.cells && DoCmd(s).wp.Low?
  {
    hide Erased, Anded;
    if s.iopin == ERASE2 {
    } else if s.iopin == PAGEPROG {
    } else if IsPointer(s.iopin) {
    }
  }

  lemma ProtectedAddr(s: Nand)
    ensures DoAddr(s).cells == s.cells && DoAddr(s).wp == s.wp
  {
    hide Or, FullAddress, FullRow;
  }

  // ---------- The host's four transfers ----------

  ghost function SendCmd(s: Nand, b: bv8): Nand {
    Run(s, [SetCLE(High), SetWE(Low), WriteIO(b), SetWE(High), SetCLE(Low)])
  }

  ghost function SendAddr(s: Nand, b: bv8): Nand {
    Run(s, [SetALE(High), SetWE(Low), WriteIO(b), SetWE(High), SetALE(Low)])
  }

  ghost function SendData(s: Nand, b: bv8): Nand {
    Run(s, [SetWE(Low), WriteIO(b), SetWE(High)])
  }

  /** The chip after RE has fallen, when the host samples the pins, and after it has risen again. */
  ghost function Sampled(s: Nand): Nand {
    Step(s, SetRE(Low))
  }

  ghost function ReadData(s: Nand): Nand {
    Step(Sampled(s), SetRE(High))
  }

  ghost function SendAll(s: Nand, data: seq<bv8>): Nand {
    if data == [] then s else SendData(SendAll(s, data[..|data| - 1]), data[|data| - 1])
  }

  ghost function AfterReads(s: Nand, n: nat): Nand {
    if n == 0 then s else ReadData(AfterReads(s, n - 1))
  }

  /** The byte the n-th read returns. */
  ghost function ReadByte(s: Nand, n: nat): bv8 {
    Sampled(AfterReads(s, n)).iopin
  }

  lemma Run1(s: Nand, a: Op)
    ensures Run(s, [a]) == Step(s, a)
  {
    hide Step;
    assert [a][..0] == [];
  }

  lemma RunMore(s: Nand, ops: seq<Op>, a: Op)
    ensures Run(s, ops + [a]) == Step(Run(s, ops), a)
  {
    hide Step;
    assert (ops + [a])[..|ops|] == ops;
  }

  lemma Run3(s: Nand, a: Op, b: Op, c: Op)
    ensures Run(s, [a, b, c]) == Step(Step(Step(s, a), b), c)
  {
    hide Step, Run;
    Run1(s, a);
    RunMore(s, [a], b);
    assert [a] + [b] == [a, b];
    RunMore(s, [a, b], c);
    assert [a, b] + [c] == [a, b, c];
  }

  lemma Run5(s: Nand, a: Op, b: Op, c: Op, d: Op, e: Op)
    ensures Run(s, [a, b, c, d, e]) == Step(Step(Step(Step(Step(s, a), b), c), d), e)
  {
    hide Step, Run;
    Run3(s, a, b, c);
    RunMore(s, [a, b, c], d);
    assert [a, b, c] + [d] == [a, b, c, d];
    RunMore(s, [a, b, c, d], e);
    assert [a, b, c, d] + [e] == [a, b, c, d, e];
  }

  lemma SendCmdIs(s: Nand, b: bv8)
    requires s.ce.Low?
    ensures SendCmd(s, b) == DoCmd(s.(cle := High, ioStatus := Cmd, we := Low, iopin := b)).(we := High, cle := Low)
  {
    Run5(s, SetCLE(High), SetWE(Low), WriteIO(b), SetWE(High), SetCLE(Low));
    hide Run, DoCmd, DoAddr;
  }

  lemma SendAddrIs(s: Nand, b: bv8)
    requires s.ce.Low?
    ensures SendAddr(s, b) == DoAddr(s.(ale := High, ioStatus := Addr, we := Low, iopin := b)).(we := High, ale := Low)
  {
    Run5(s, SetALE(High), SetWE(Low), WriteIO(b), SetWE(High), SetALE(Low));
    hide Run, DoCmd, DoAddr;
  }

  lemma SendDataIs(s: Nand, b: bv8)
    requires s.ce.Low? && s.ioStatus.DataWrite?
    ensures SendData(s, b) == DoDataWrite(s.(we := Low, iopin := b)).(we := High)
  {
    Run3(s, SetWE(Low), WriteIO(b), SetWE(High));
    hide Run, DoCmd, DoAddr;
  }

  // ---------- Programming a page and reading it back ----------

  predicate IsPointer(c: bv8) {
    c == 0x00 || c == 0x01 || c == 0x50
  }

  /** Where in the page a pointer command points. */
  function PointerOffset(c: bv8): nat {
    if c == 0x00 then 0 else if c == 0x01 then 256 else 512
  }

  /** 4096 blocks of 32 rows. */
  const ROWS := 0x2_0000

  /** Opening a sequence: the command and its four address bytes. */
  ghost function Addressed(s: Nand, c: bv8, col: bv8, b0: bv8, b1: bv8, b2: bv8): Nand {
    SendAddr(SendAddr(SendAddr(SendAddr(SendCmd(s, c), col), b0), b1), b2)
  }

  /** The column of a sequence: a pointer command sets where it is counted from, SEQIN counts on from the last one. */
  function Column(s: Nand, c: bv8, col: bv8): nat {
    ((if c == SEQIN then s.pageOffset else PointerOffset(c)) + Val(col)) % 0x1_0000
  }

  /** The chip once a sequence's address is in: at byte `off` of row `row`. */
  ghost predicate AtByte(r: Nand, s: Nand, c: bv8, row: nat, off: nat) {
    && Sized(r) && r.cells == s.cells && r.ce.Low? && r.wp == s.wp && r.re == s.re
    && r.cmd == c && r.address == row * 528 + off && r.pageOffset == off
    && (if c == SEQIN then r.ioStatus.DataWrite? && r.cmdStatus.AddrFinish? && r.writeBuffer == Ones(PAGE_DUMP)
        else r.ioStatus.DataRead?)
  }

  /** The first three address bytes. */
  ghost predicate PartAddressed(r: Nand, s: Nand, c: bv8, off: nat, rows: seq<bv8>) {
    && Sized(r) && r.cells == s.cells && r.ce.Low? && r.wp == s.wp && r.re == s.re
    && r.cmd == c && r.pageOffset == off && (c == SEQIN ==> r.writeBuffer == Ones(PAGE_DUMP))
    && |rows| < 3 && AddressSoFar(r, rows)
  }

  lemma Opening(s: Nand, c: bv8)
    requires Sized(s) && s.ce.Low? && (IsPointer(c) || c == SEQIN)
    ensures var r := SendCmd(s, c);
      && Sized(r) && r.cells == s.cells && r.ce.Low? && r.wp == s.wp && r.re == s.re
      && r.cmd == c && r.cmdStatus.Addr1? && (c == SEQIN ==> r.writeBuffer == Ones(PAGE_DUMP))
      && r.pageOffset == if c == SEQIN then s.pageOffset else PointerOffset(c)
  {
    SendCmdIs(s, c);
    hide SendCmd, Erased, Anded, Ones;
  }

  lemma ColumnByte(r: Nand, col: bv8)
    requires Sized(r) && r.ce.Low? && r.cmdStatus.Addr1?
    ensures PartAddressed(SendAddr(r, col), r, r.cmd, (r.pageOffset + Val(col)) % 0x1_0000, [])
         || (r.cmd == SEQIN && r.writeBuffer != Ones(PAGE_DUMP))
  {
    SendAddrIs(r, col);
    hide SendAddr, Or, FullAddress, FullRow, Ones;
  }

  lemma RowByte(r: Nand, s: Nand, c: bv8, off: nat, rows: seq<bv8>, b: bv8)
    requires PartAddressed(r, s, c, off, rows) && |rows| < 2
    ensures PartAddressed(SendAddr(r, b), s, c, off, rows + [b])
  {
    SendAddrIs(r, b);
    AddressBytes(if |rows| == 0 then b else rows[0], b, 0);
    hide SendAddr, Or, FullAddress, FullRow;
  }

  lemma LastRowByte(r: Nand, s: Nand, c: bv8, off: nat, b0: bv8, b1: bv8, b2: bv8)
    requires PartAddressed(r, s, c, off, [b0, b1]) && (IsPointer(c) || c == SEQIN)
    requires Row(b0, b1, b2) < ROWS && off < 0x1_0000
    ensures AtByte(SendAddr(r, b2), s, c, Row(b0, b1, b2), off)
  {
    hide Val, SendAddr, Or, FullAddress, FullRow, Row;
    SendAddrIs(r, b2);
    AddressBytes(b0, b1, b2);
    InDevice(Row(b0, b1, b2), off);
  }

  lemma InDevice(row: nat, off: nat)
    requires row < ROWS && off < 0x1_0000
    ensures FullAddress(row, off) == row * 528 + off
  {
  }

  lemma AddressedIs(s: Nand, c: bv8, col: bv8, b0: bv8, b1: bv8, b2: bv8)
    requires Sized(s) && s.ce.Low? && (IsPointer(c) || c == SEQIN) && Row(b0, b1, b2) < ROWS
    ensures AtByte(Addressed(s, c, col, b0, b1, b2), s, c, Row(b0, b1, b2), Column(s, c, col))
  {
    hide PartAddressed, AtByte, SendCmd, SendAddr, Row, Column;
    var off := Column(s, c, col);
    ColumnLatched(s, c, col);
    var r := SendAddr(SendCmd(s, c), col);
    RowByte(r, s, c, off, [], b0);
    assert [] + [b0] == [b0];
    RowByte(SendAddr(r, b0), s, c, off, [b0], b1);
    assert [b0] + [b1] == [b0, b1];
    LastRowByte(SendAddr(SendAddr(r, b0), b1), s, c, off, b0, b1, b2);
  }

  lemma ColumnLatched(s: Nand, c: bv8, col: bv8)
    requires Sized(s) && s.ce.Low? && (IsPointer(c) || c == SEQIN)
    ensures PartAddressed(SendAddr(SendCmd(s, c), col), s, c, Column(s, c, col), []) && Column(s, c, col) < 0x1_0000
  {
    Opening(s, c);
    ColumnByte(SendCmd(s, c), col);
    hide SendCmd, SendAddr, Val;
  }

  /** A page buffer of ones with `data` at `off`. */
  ghost predicate Holds(buffer: seq<bv8>, off: nat, data: seq<bv8>) {
    && |buffer| == PAGE_DUMP && off + |data| <= PAGE_DUMP
    && forall i :: 0 <= i < PAGE_DUMP ==> buffer[i] == if off <= i < off + |data| then data[i - off] else 0xFF
  }

  lemma HoldsOneMore(buffer: seq<bv8>, off: nat, data: seq<bv8>)
    requires data != [] && off + |data| <= PAGE_DUMP && Holds(buffer, off, data[..|data| - 1])
    ensures |buffer| == PAGE_DUMP
    ensures Holds(buffer[off + |data| - 1 := data[|data| - 1]], off, data)
  {
  }

  /** The chip with `data` latched into its page buffer at `off`. */
  ghost predicate Loaded(r: Nand, s: Nand, off: nat, data: seq<bv8>) {
    && Holds(r.writeBuffer, off, data) && r.pageOffset == off + |data|
    && r == s.(writeBuffer := r.writeBuffer, pageOffset := r.pageOffset, iopin := r.iopin, we := r.we)
  }

  lemma {:induction false} SendAllIs(s: Nand, off: nat, data: seq<bv8>)
    requires s.ce.Low? && s.wp.High? && s.ioStatus.DataWrite?
    requires s.writeBuffer == Ones(PAGE_DUMP) && s.pageOffset == off && off + |data| <= PAGE_DUMP
    ensures Loaded(SendAll(s, data), s, off, data)
  {
    hide SendData;
    if data != [] {
      var n := |data| - 1;
      SendAllIs(s, off, data[..n]);
      LoadOne(SendAll(s, data[..n]), s, off, data);
      hide Loaded;
    }
  }

  lemma LoadOne(t: Nand, s: Nand, off: nat, data: seq<bv8>)
    requires s.ce.Low? && s.wp.High? && s.ioStatus.DataWrite? && data != [] && off + |data| <= PAGE_DUMP
    requires Loaded(t, s, off, data[..|data| - 1])
    ensures Loaded(SendData(t, data[|data| - 1]), s, off, data)
  {
    hide SendData, Holds;
    SendDataIs(t, data[|data| - 1]);
    HoldsOneMore(t.writeBuffer, off, data);
  }

  /** The program command, the address, the data and the confirm command. */
  ghost function BareProgram(s: Nand, col: bv8, b0: bv8, b1: bv8, b2: bv8, data: seq<bv8>): Nand {
    SendCmd(SendAll(Addressed(s, 0x80, col, b0, b1, b2), data), 0x10)
  }

  /** The same after a pointer command. */
  ghost function Program(s: Nand, c: bv8, col: bv8, b0: bv8, b1: bv8, b2: bv8, data: seq<bv8>): Nand {
    BareProgram(SendCmd(s, c), col, b0, b1, b2, data)
  }

  lemma PageProg(s: Nand, row: nat, off: nat, data: seq<bv8>)
    requires Sized(s) && s.ce.Low? && s.wp.High? && s.cmd == SEQIN && s.cmdStatus.AddrFinish?
    requires s.address == row * 528 + off && off < PAGE_DUMP && row < ROWS && Holds(s.writeBuffer, off, data)
    ensures var r := SendCmd(s, PAGEPROG);
      && Sized(r) && r.ce.Low? && r.re == s.re && r.wp == s.wp && r.pageOffset == s.pageOffset
      && r.cells == Anded(s.cells, s.address, data)
  {
    hide SendCmd, And, Anded;
    SendCmdIs(s, PAGEPROG);
    assert s.address - s.address % PAGE_DUMP == row * 528;
    AndOnes();
  }

  lemma AndOnes()
    ensures forall x :: And(x, 0xFF) == x
  {
  }

  /** A program without a pointer command ands the data into the row from the column that the last sequence left off
      at, plus its own. */
  lemma BareProgramAndsData(s: Nand, col: bv8, b0: bv8, b1: bv8, b2: bv8, data: seq<bv8>)
    requires Sized(s) && s.ce.Low? && s.wp.High? && Row(b0, b1, b2) < ROWS
    requires s.pageOffset + Val(col) < PAGE_DUMP && s.pageOffset + Val(col) + |data| <= PAGE_DUMP
    ensures var r := BareProgram(s, col, b0, b1, b2, data);
      && Sized(r) && r.ce.Low? && r.re == s.re && r.wp.High? && r.pageOffset == s.pageOffset + Val(col) + |data|
      && r.cells == Anded(s.cells, Row(b0, b1, b2) * 528 + s.pageOffset + Val(col), data)
  {
    hide Row, Val, Addressed, SendCmd, SendAll, Anded;
    var off := s.pageOffset + Val(col);
    AddressedIs(s, SEQIN, col, b0, b1, b2);
    var t := Addressed(s, SEQIN, col, b0, b1, b2);
    SendAllIs(t, off, data);
    PageProg(SendAll(t, data), Row(b0, b1, b2), off, data);
  }

  lemma ProgramIs(s: Nand, c: bv8, col: bv8, b0: bv8, b1: bv8, b2: bv8, data: seq<bv8>)
    requires Sized(s) && s.ce.Low? && s.wp.High? && IsPointer(c)
    requires PointerOffset(c) + Val(col) < PAGE_DUMP && PointerOffset(c) + Val(col) + |data| <= PAGE_DUMP
    requires Row(b0, b1, b2) < ROWS
    ensures var r := Program(s, c, col, b0, b1, b2, data);
      && Sized(r) && r.ce.Low? && r.re == s.re && r.wp.High?
      && r.pageOffset == PointerOffset(c) + Val(col) + |data|
      && r.cells == Anded(s.cells, Row(b0, b1, b2) * 528 + PointerOffset(c) + Val(col), data)
  {
    hide Row, Val, PointerOffset, BareProgram, SendCmd, Anded;
    Opening(s, c);
    BareProgramAndsData(SendCmd(s, c), col, b0, b1, b2, data);
  }

  /** A page program sequence ands the data into the addressed bytes and changes no other byte. */
  lemma ProgramAndsData(s: Nand, c: bv8, col: bv8, b0: bv8, b1: bv8, b2: bv8, data: seq<bv8>)
    requires Sized(s) && s.ce.Low? && s.wp.High? && IsPointer(c)
    requires PointerOffset(c) + Val(col) < PAGE_DUMP && PointerOffset(c) + Val(col) + |data| <= PAGE_DUMP
    requires Row(b0, b1, b2) < ROWS
    ensures var r, start := Program(s, c, col, b0, b1, b2, data), Row(b0, b1, b2) * 528 + PointerOffset(c) + Val(col);
      && Sized(r) && |r.cells| == |s.cells| && r.ce.Low? && r.re == s.re && r.wp.High?
      && forall a :: 0 <= a < |s.cells| ==>
           r.cells[a] == if start <= a < start + |data| then s.cells[a] & data[a - start] else s.cells[a]
  {
    hide Row, Val, PointerOffset, Program;
    ProgramIs(s, c, col, b0, b1, b2, data);
  }

  /** The array after a program without a pointer command, had it held `cells` before. */
  ghost function BareCells(s: Nand, cells: seq<bv8>, col: bv8, b0: bv8, b1: bv8, b2: bv8, data: seq<bv8>): seq<bv8> {
    BareProgram(s.(cells := cells), col, b0, b1, b2, data).cells
  }

  lemma BareCellsAre(s: Nand, cells: seq<bv8>, col: bv8, b0: bv8, b1: bv8, b2: bv8, data: seq<bv8>)
    requires Sized(s) && s.ce.Low? && s.wp.High? && Row(b0, b1, b2) < ROWS && |cells| == |s.cells|
    requires s.pageOffset + Val(col) < PAGE_DUMP && s.pageOffset + Val(col) + |data| <= PAGE_DUMP
    ensures BareCells(s, cells, col, b0, b1, b2, data) == Anded(cells, Row(b0, b1, b2) * 528 + Val(col) + s.pageOffset, data)
  {
    hide Row, Val, BareProgram, Anded;
    BareProgramAndsData(s.(cells := cells), col, b0, b1, b2, data);
  }

  /** The bits a program clears are those at the column asked for, for all contents, exactly when no column is left over
      from before, or the data clears nothing. */
  lemma BareProgramExactly(s: Nand, col: bv8, b0: bv8, b1: bv8, b2: bv8, data: seq<bv8>)
    requires Sized(s) && s.ce.Low? && s.wp.High? && Row(b0, b1, b2) < ROWS
    requires s.pageOffset + Val(col) < PAGE_DUMP && s.pageOffset + Val(col) + |data| <= PAGE_DUMP
    ensures (forall cells: seq<bv8> :: |cells| == |s.cells| ==>
        BareCells(s, cells, col, b0, b1, b2, data) == Anded(cells, Row(b0, b1, b2) * 528 + Val(col), data))
      <==> s.pageOffset == 0 || forall i :: 0 <= i < |data| ==> data[i] == 0xFF
  {
    hide Row, Val, BareCells, Anded;
    var start, gap := Row(b0, b1, b2) * 528 + Val(col), s.pageOffset;
    if gap == 0 || forall i :: 0 <= i < |data| ==> data[i] == 0xFF {
      forall cells: seq<bv8> | |cells| == |s.cells|
        ensures BareCells(s, cells, col, b0, b1, b2, data) == Anded(cells, start, data)
      {
        BareCellsAre(s, cells, col, b0, b1, b2, data);
        AndedSame(cells, start, gap, data);
      }
    } else {
      BareCellsAre(s, Ones(|s.cells|), col, b0, b1, b2, data);
      InDevice(Row(b0, b1, b2), gap + Val(col));
      AndedApart(|s.cells|, start, gap, data);
    }
  }

  lemma AndedSame(cells: seq<bv8>, start: nat, gap: nat, data: seq<bv8>)
    requires gap == 0 || forall i :: 0 <= i < |data| ==> data[i] == 0xFF
    ensures Anded(cells, start + gap, data) == Anded(cells, start, data)
  {
    hide And;
    AndOnes();
  }

  /** Data that clears a bit does so at different places from different starts. */
  lemma AndedApart(size: nat, start: nat, gap: nat, data: seq<bv8>)
    requires start + gap + |data| <= size && gap > 0 && exists i :: 0 <= i < |data| && data[i] != 0xFF
    ensures Anded(Ones(size), start + gap, data) != Anded(Ones(size), start, data)
  {
    var i := FirstZero(data);
    assert Anded(Ones(size), start, data)[start + i] == And(0xFF, data[i]) != 0xFF;
    assert Anded(Ones(size), start + gap, data)[start + i] == 0xFF;
  }

  lemma FirstZero(data: seq<bv8>) returns (i: nat)
    requires exists i :: 0 <= i < |data| && data[i] != 0xFF
    ensures i < |data| && data[i] != 0xFF && forall j :: 0 <= j < i ==> data[j] == 0xFF
  {
    i := 0;
    while data[i] == 0xFF
      invariant i < |data| && forall j :: 0 <= j < i ==> data[j] == 0xFF
      decreases |data| - i
    {
      i := i + 1;
    }
  }

  /** A second program with the same address but without a pointer command lands behind the first. */
  lemma SecondProgramLandsBehind(s: Nand, x: bv8, y: bv8)
    requires Sized(s) && s.ce.Low? && s.wp.High?
    ensures BareProgram(Program(s, 0x00, 0, 0, 0, 0, [x]), 0, 0, 0, 0, [y]).cells
         == s.cells[0 := s.cells[0] & x][1 := s.cells[1] & y]
  {
    hide Program, BareProgram;
    FirstLands(s, x);
    BareLands(Program(s, READ0, 0, 0, 0, 0, [x]), y);
  }

  lemma FirstLands(s: Nand, x: bv8)
    requires Sized(s) && s.ce.Low? && s.wp.High?
    ensures var t := Program(s, READ0, 0, 0, 0, 0, [x]);
      Sized(t) && t.ce.Low? && t.wp.High? && t.pageOffset == 1 && t.cells == s.cells[0 := s.cells[0] & x]
  {
    hide Program, Row, Val, Anded;
    ZeroRow();
    ProgramIs(s, READ0, 0, 0, 0, 0, [x]);
    AndedOne(s.cells, 0, x);
  }

  lemma BareLands(s: Nand, x: bv8)
    requires Sized(s) && s.ce.Low? && s.wp.High? && s.pageOffset == 1
    ensures BareProgram(s, 0, 0, 0, 0, [x]).cells == s.cells[1 := s.cells[1] & x]
  {
    hide BareProgram, Row, Val, Anded;
    ZeroRow();
    BareProgramAndsData(s, 0, 0, 0, 0, [x]);
    AndedOne(s.cells, 1, x);
  }

  lemma AndedOne(cells: seq<bv8>, a: nat, x: bv8)
    requires a < |cells|
    ensures Anded(cells, a, [x]) == cells[a := cells[a] & x]
  {
  }

  lemma ZeroRow()
    ensures Row(0, 0, 0) == 0 && Val(0) == 0
  {
  }

  /** Where a read continues: a spare-area read skips the main area of every page. */
  function NextAddress(c: bv8, a: nat): nat {
    if (a + 1) % PAGE_DUMP == 0 && c == READOOB then a + 1 + PAGE_SIZE else a + 1
  }

  /** The address of the n-th byte read after the read started at `a`. */
  function ReadAddress(c: bv8, a: nat, n: nat): nat {
    if n == 0 then a else NextAddress(c, ReadAddress(c, a, n - 1))
  }

  lemma ReadOne(s: Nand)
    requires Sized(s) && s.ce.Low? && s.re.High? && s.ioStatus.DataRead? && s.address < DEVICE_SIZE
    ensures Sampled(s).iopin == s.cells[s.address]
    ensures ReadData(s) == s.(iopin := s.cells[s.address], address := NextAddress(s.cmd, s.address))
  {
    hide Latch;
  }

  lemma {:induction false} ReadsFollowAddress(s: Nand, n: nat)
    requires Sized(s) && s.ce.Low? && s.re.High? && s.ioStatus.DataRead?
    requires forall k: nat :: k <= n ==> ReadAddress(s.cmd, s.address, k) < DEVICE_SIZE
    ensures ReadByte(s, n) == s.cells[ReadAddress(s.cmd, s.address, n)]
    ensures var r := AfterReads(s, n);
      r == s.(iopin := r.iopin, address := ReadAddress(s.cmd, s.address, n))
  {
    hide ReadData, Sampled, NextAddress;
    if n == 0 {
      ReadOne(s);
    } else {
      ReadsFollowAddress(s, n - 1);
      assert ReadAddress(s.cmd, s.address, n - 1) < DEVICE_SIZE;
      ReadOne(AfterReads(s, n - 1));
      assert ReadAddress(s.cmd, s.address, n) < DEVICE_SIZE;
      ReadOne(AfterReads(s, n));
    }
  }

  /** The n-th byte of a spare-area read from row `row`, column `c`. */
  function SpareAddress(row: nat, c: nat, n: nat): nat {
    (row + (c + n) / 16) * 528 + 512 + (c + n) % 16
  }

  lemma {:induction false} ReadAddressIs(c: bv8, row: nat, col: nat, n: nat)
    requires IsPointer(c) && (c == READOOB ==> col < 16)
    ensures ReadAddress(c, row * 528 + PointerOffset(c) + col, n)
         == if c == READOOB then SpareAddress(row, col, n) else row * 528 + PointerOffset(c) + col + n
  {
    if n != 0 {
      ReadAddressIs(c, row, col, n - 1);
      if c == READOOB {
        NextSpare(row, col, n - 1);
      }
    }
  }

  lemma NextSpare(row: nat, col: nat, n: nat)
    requires col < 16
    ensures NextAddress(READOOB, SpareAddress(row, col, n)) == SpareAddress(row, col, n + 1)
  {
    var p, q := (col + n) / 16, (col + n) % 16;
    var a := SpareAddress(row, col, n);
    assert a == (row + p) * 528 + 512 + q;
    if q == 15 {
      assert (col + n + 1) / 16 == p + 1 && (col + n + 1) % 16 == 0;
      assert a + 1 == (row + p + 1) * 528;
    } else {
      assert (col + n + 1) / 16 == p && (col + n + 1) % 16 == q + 1;
      assert (a + 1) % 528 == 512 + q + 1;
    }
  }

  lemma SpareIs(row: nat, c: nat, n: nat)
    ensures SpareAddress(row, c, n) / PAGE_DUMP == row + (c + n) / 16
    ensures SpareAddress(row, c, n) % PAGE_DUMP == PAGE_SIZE + (c + n) % 16
    ensures row + (c + n) / 16 < ROWS ==> SpareAddress(row, c, n) < DEVICE_SIZE
  {
    assert SpareAddress(row, c, n) == 528 * (row + (c + n) / 16) + (512 + (c + n) % 16);
  }

  /** READOOB reads the spare bytes of page after page and never fetches a byte of a main area. */
  lemma SpareAreaRead(s: Nand, col: bv8, b0: bv8, b1: bv8, b2: bv8, n: nat)
    requires Sized(s) && s.ce.Low? && s.re.High? && col < 16
    requires Row(b0, b1, b2) + (Val(col) + n) / 16 < ROWS
    ensures SpareAddress(Row(b0, b1, b2), Val(col), n) < |s.cells|
    ensures ReadByte(Addressed(s, 0x50, col, b0, b1, b2), n) == s.cells[SpareAddress(Row(b0, b1, b2), Val(col), n)]
    ensures SpareAddress(Row(b0, b1, b2), Val(col), n) % 528 == 512 + (Val(col) + n) % 16
    ensures SpareAddress(Row(b0, b1, b2), Val(col), n) / 528 == Row(b0, b1, b2) + (Val(col) + n) / 16
  {
    hide Row, Val, Addressed, ReadByte, AfterReads, ReadAddress, SpareAddress;
    var r, row, c := Addressed(s, 0x50, col, b0, b1, b2), Row(b0, b1, b2), Val(col);
    SmallColumn(col);
    AddressedIs(s, READOOB, col, b0, b1, b2);
    assert r.address == row * 528 + 512 + c;
    SpareReads(r.address, row, c, n);
    ReadsFollowAddress(r, n);
    SpareIs(row, c, n);
  }

  lemma SmallColumn(col: bv8)
    requires col < 16
    ensures Val(col) < 16
  {
  }

  lemma SpareReads(a: nat, row: nat, c: nat, n: nat)
    requires a == row * 528 + 512 + c && c < 16 && row + (c + n) / 16 < ROWS
    ensures forall k: nat :: k <= n ==> ReadAddress(READOOB, a, k) < DEVICE_SIZE
    ensures ReadAddress(READOOB, a, n) == SpareAddress(row, c, n)
  {
    hide ReadAddress, SpareAddress;
    ReadAddressIs(READOOB, row, c, n);
    forall k: nat | k <= n
      ensures ReadAddress(READOOB, a, k) < DEVICE_SIZE
    {
      ReadAddressIs(READOOB, row, c, k);
      SpareIs(row, c, k);
      assert (c + k) / 16 <= (c + n) / 16;
    }
  }

  /** Main-area reads run on through the device byte by byte. */
  lemma SequentialRead(s: Nand, c: bv8, col: bv8, b0: bv8, b1: bv8, b2: bv8, n: nat)
    requires Sized(s) && s.ce.Low? && s.re.High? && (c == 0x00 || c == 0x01)
    requires PointerOffset(c) + Val(col) < PAGE_DUMP && Row(b0, b1, b2) < ROWS
    requires Row(b0, b1, b2) * 528 + PointerOffset(c) + Val(col) + n < 528 * ROWS
    ensures ReadByte(Addressed(s, c, col, b0, b1, b2), n)
         == s.cells[Row(b0, b1, b2) * 528 + PointerOffset(c) + Val(col) + n]
  {
    hide Row, PointerOffset, Addressed, ReadByte, AfterReads, ReadAddress;
    AddressedIs(s, c, col, b0, b1, b2);
    var r, row := Addressed(s, c, col, b0, b1, b2), Row(b0, b1, b2);
    forall k: nat | k <= n
      ensures ReadAddress(c, r.address, k) < DEVICE_SIZE
    {
      ReadAddressIs(c, row, Val(col), k);
    }
    ReadAddressIs(c, row, Val(col), n);
    ReadsFollowAddress(r, n);
  }

  /** Programming bytes and reading the same address back gives the old bytes and-ed with the data, in order. */
  lemma ProgramThenRead(s: Nand, c: bv8, col: bv8, b0: bv8, b1: bv8, b2: bv8, data: seq<bv8>, i: nat)
    requires Sized(s) && s.ce.Low? && s.wp.High? && s.re.High? && IsPointer(c)
    requires PointerOffset(c) + Val(col) + |data| <= PAGE_DUMP && i < |data|
    requires Row(b0, b1, b2) < ROWS
    ensures Row(b0, b1, b2) * 528 + PointerOffset(c) + Val(col) + i < |s.cells|
    ensures ReadByte(Addressed(Program(s, c, col, b0, b1, b2, data), c, col, b0, b1, b2), i)
         == s.cells[Row(b0, b1, b2) * 528 + PointerOffset(c) + Val(col) + i] & data[i]
  {
    hide Row, Addressed, ReadByte, Program;
    ProgramAndsData(s, c, col, b0, b1, b2, data);
    var r := Program(s, c, col, b0, b1, b2, data);
    if c == READOOB {
      SpareAreaRead(r, col, b0, b1, b2, i);
    } else {
      SequentialRead(r, c, col, b0, b1, b2, i);
    }
  }

  /** The RESET command lifts write protection without any change of the WP pin. */
  lemma ResetLiftsWriteProtect(s: Nand, b0: bv8, b1: bv8, b2: bv8)
    requires Sized(s) && s.ce.Low? && s.wp.Low? && Row(b0, b1, b2) < ROWS
    ensures Program(s, 0x00, 0, b0, b1, b2, [0]).cells == s.cells
    ensures Program(SendCmd(s, 0xff), 0x00, 0, b0, b1, b2, [0]).cells == s.cells[Row(b0, b1, b2) * 528 := 0]
  {
    hide Row, Program, SendCmd;
    ProtectedProgram(s, READ0, 0, b0, b1, b2, 0);
    var r := SendCmd(s, RESET);
    ResetCmd(s);
    ProgramAndsData(r, READ0, 0, b0, b1, b2, [0]);
    assert s.cells[Row(b0, b1, b2) * 528] & 0 == 0;
  }

  /** At any state, programming a zero over a byte that has a bit set tells WP: the array keeps its contents exactly
      while WP is low. */
  lemma ZeroProgramTellsWp(s: Nand, c: bv8, col: bv8, b0: bv8, b1: bv8, b2: bv8)
    requires Sized(s) && s.ce.Low? && IsPointer(c)
    requires PointerOffset(c) + Val(col) < PAGE_DUMP && Row(b0, b1, b2) < ROWS
    requires var a := Row(b0, b1, b2) * 528 + PointerOffset(c) + Val(col); a < |s.cells| && s.cells[a] != 0
    ensures Program(s, c, col, b0, b1, b2, [0]).cells == s.cells <==> s.wp.Low?
  {
    hide Row, Program, Val, PointerOffset;
    if s.wp.Low? {
      ProtectedProgram(s, c, col, b0, b1, b2, 0);
    } else {
      ProgramAndsData(s, c, col, b0, b1, b2, [0]);
      var a := Row(b0, b1, b2) * 528 + PointerOffset(c) + Val(col);
      assert Program(s, c, col, b0, b1, b2, [0]).cells[a] == s.cells[a] & 0 == 0;
    }
  }

  lemma ResetCmd(s: Nand)
    requires Sized(s) && s.ce.Low?
    ensures var r := SendCmd(s, RESET); Sized(r) && r.ce.Low? && r.wp.High? && r.cells == s.cells
  {
    SendCmdIs(s, RESET);
    hide SendCmd;
  }

  lemma ProtectedProgram(s: Nand, c: bv8, col: bv8, b0: bv8, b1: bv8, b2: bv8, x: bv8)
    requires Sized(s) && s.ce.Low? && s.wp.Low? && IsPointer(c)
    requires PointerOffset(c) + Val(col) < PAGE_DUMP && Row(b0, b1, b2) < ROWS
    ensures Program(s, c, col, b0, b1, b2, [x]).cells == s.cells
  {
    hide Row, PointerOffset, Addressed, SendCmd, SendData;
    Opening(s, c);
    var s1 := SendCmd(s, c);
    AddressedIs(s1, SEQIN, col, b0, b1, b2);
    var s2 := Addressed(s1, SEQIN, col, b0, b1, b2);
    assert [x][..0] == [];
    assert SendAll(s2, [x]) == SendData(s2, x);
    SendDataIs(s2, x);
    SendCmdIs(SendData(s2, x), PAGEPROG);
    ProtectedCmd(SendData(s2, x).(cle := High, ioStatus := Cmd, we := Low, iopin := PAGEPROG));
  }

  // ---------- Reading the ID ----------

  /** The chip with its next ID byte selected. */
  ghost predicate AtId(t: Nand, s: Nand, n: nat) {
    && n <= 4 && t.ce.Low? && t.re == s.re && t.cells == s.cells && t.wp == s.wp
    && (if n == 4 then t.ioStatus.Idle? && t.cmdStatus.NoStatus?
        else t.ioStatus.IdRead? && t.cmdStatus == IdStatus(n))
  }

  function IdStatus(n: nat): CmdStatus {
    match n case 0 => ReadId1 case 1 => ReadId2 case 2 => ReadId3 case _ => ReadId4
  }

  lemma ReadIdOne(t: Nand, s: Nand, n: nat)
    requires s.re.High? && AtId(t, s, n) && n < 4
    ensures Sampled(t).iopin == ID[n] && AtId(ReadData(t), s, n + 1)
  {
    IdFetched(t, n);
    hide Latch, Fetch;
  }

  lemma IdFetched(t: Nand, n: nat)
    requires n < 4 && t.ioStatus.IdRead? && t.cmdStatus == IdStatus(n)
    ensures Fetch(t) == t.(iopin := ID[n], cmdStatus := if n == 3 then NoStatus else IdStatus(n + 1),
                           ioStatus := if n == 3 then Idle else IdRead)
  {
    hide DoRead;
    if n == 0 {
    } else if n == 1 {
    } else if n == 2 {
    }
  }

  lemma IdAddressed(s: Nand, b: bv8)
    requires s.ce.Low?
    ensures AtId(SendAddr(SendCmd(s, READID), b), s, 0)
  {
    SendCmdIs(s, READID);
    var r := SendCmd(s, READID);
    SendAddrIs(r, b);
    hide SendAddr, SendCmd, Or, FullAddress, FullRow, Erased, Anded, Ones;
  }

  lemma {:induction false} IdReadsTo(t: Nand, s: Nand, n: nat)
    requires s.re.High? && AtId(t, s, 0) && n <= 4
    ensures AtId(AfterReads(t, n), s, n)
    decreases n
  {
    hide AtId, ReadData, Sampled;
    if n > 0 {
      IdReadsTo(t, s, n - 1);
      ReadIdOne(AfterReads(t, n - 1), s, n - 1);
    }
  }

  /** READID, one address byte, and four reads return the four ID bytes in order; then the chip is idle and the array
      is as it was. */
  lemma ReadIdReturnsId(s: Nand, b: bv8, n: nat)
    requires s.ce.Low? && s.re.High? && n < 4
    ensures var t := SendAddr(SendCmd(s, 0x90), b);
      && ReadByte(t, n) == (match n case 0 => 0xEC case 1 => 0x76 case 2 => 0xA5 case _ => 0xC0)
      && AfterReads(t, 4).ioStatus.Idle? && AfterReads(t, 4).cmdStatus.NoStatus? && AfterReads(t, 4).cells == s.cells
  {
    var t := SendAddr(SendCmd(s, READID), b);
    IdAddressed(s, b);
    hide SendCmd, SendAddr, AfterReads, Sampled, ReadData;
    IdReadsTo(t, s, n);
    IdReadsTo(t, s, 4);
    ReadIdOne(AfterReads(t, n), s, n);
  }

  // ---------- Erasing a block ----------

  /** The erase command, three row bytes and the confirm command. */
  ghost function EraseBlock(s: Nand, b0: bv8, b1: bv8, b2: bv8): Nand {
    SendCmd(SendAddr(SendAddr(SendAddr(SendCmd(s, 0x60), b0), b1), b2), 0xd0)
  }

  lemma EraseOpens(s: Nand)
    requires Sized(s) && s.ce.Low?
    ensures PartAddressed(SendCmd(s, 0x60), s, ERASE1, 0, [])
  {
    SendCmdIs(s, 0x60);
    hide SendCmd, Erased, Anded, Ones;
  }

  lemma EraseAddressed(r: Nand, s: Nand, b0: bv8, b1: bv8, b2: bv8)
    requires PartAddressed(r, s, ERASE1, 0, [b0, b1]) && Row(b0, b1, b2) < ROWS
    ensures var t := SendAddr(r, b2);
      && Sized(t) && t.cells == s.cells && t.ce.Low? && t.wp == s.wp && t.cmd == ERASE1 && t.cmdStatus.AddrFinish?
      && t.address == Row(b0, b1, b2) * 528
  {
    hide Val, SendAddr, Or, FullAddress, FullRow, Row;
    SendAddrIs(r, b2);
    AddressBytes(b0, b1, b2);
    InDevice(Row(b0, b1, b2), 0);
  }

  lemma EraseConfirmed(t: Nand, row: nat)
    requires Sized(t) && t.ce.Low? && t.cmd == ERASE1 && t.cmdStatus.AddrFinish? && t.address == row * 528
    ensures var r := SendCmd(t, 0xd0);
      r.cells == if t.wp.High? then Erased(t.cells, row * 528 - row * 528 % ERASE_SIZE) else t.cells
  {
    SendCmdIs(t, 0xd0);
    hide SendCmd, Erased, Anded, Ones;
  }

  lemma BlockOf(row: nat, a: nat)
    ensures var base := row * 528 - row * 528 % ERASE_SIZE;
      base <= a < base + ERASE_SIZE <==> a / 528 / 32 == row / 32
  {
    var q, r := row / 32, row % 32;
    assert row * 528 == ERASE_SIZE * q + 528 * r;
    DivUnique(row * 528, ERASE_SIZE, q, 528 * r);
    DivDiv(a, 528, 32);
    assert a / 528 / 32 == a / ERASE_SIZE;
    assert a == ERASE_SIZE * (a / ERASE_SIZE) + a % ERASE_SIZE;
  }

  /** An erase sequence sets every byte of the 32 pages of the addressed row's block to ones and changes no other byte;
      with WP low it changes nothing. */
  lemma EraseSetsBlock(s: Nand, b0: bv8, b1: bv8, b2: bv8)
    requires Sized(s) && s.ce.Low? && Row(b0, b1, b2) < ROWS
    ensures var r := EraseBlock(s, b0, b1, b2);
      && |r.cells| == |s.cells|
      && forall a :: 0 <= a < |s.cells| ==>
           r.cells[a] == if s.wp.High? && a / 528 / 32 == Row(b0, b1, b2) / 32 then 0xff else s.cells[a]
  {
    hide Row, SendCmd, SendAddr, PartAddressed;
    EraseOpens(s);
    var r0 := SendCmd(s, 0x60);
    RowByte(r0, s, ERASE1, 0, [], b0);
    assert [] + [b0] == [b0];
    RowByte(SendAddr(r0, b0), s, ERASE1, 0, [b0], b1);
    assert [b0] + [b1] == [b0, b1];
    EraseAddressed(SendAddr(SendAddr(r0, b0), b1), s, b0, b1, b2);
    var row := Row(b0, b1, b2);
    EraseConfirmed(SendAddr(SendAddr(SendAddr(r0, b0), b1), b2), row);
    forall a | 0 <= a < |s.cells|
      ensures var base := row * 528 - row * 528 % ERASE_SIZE;
        base <= a < base + ERASE_SIZE <==> a / 528 / 32 == row / 32
    {
      BlockOf(row, a);
    }
  }

  // ---------- The status ----------

  /** The status byte tells the WP state, and bit 6 that the chip is ready. */
  ghost predicate StatusOfWp(s: Nand) {
    s.status == if s.wp.High? then 0xc0 else 0x40
  }

  lemma StepKeepsStatus(s: Nand, op: Op)
    requires StatusOfWp(s)
    ensures StatusOfWp(Step(s, op))
  {
    StatusBits(s.status);
    FetchKeeps(s);
    LatchKeepsStatus(s);
    hide Latch, Fetch;
  }

  lemma StatusBits(x: bv8)
    requires x == 0xc0 || x == 0x40
    ensures x & 127 == 0x40 && x | 128 == 0xc0
  {
  }

  lemma LatchKeepsStatus(s: Nand)
    requires StatusOfWp(s)
    ensures StatusOfWp(Latch(s))
  {
    CmdKeepsStatus(s);
    ProtectedAddr(s);
    AddrKeepsStatus(s);
    hide DoCmd, DoAddr;
  }

  lemma CmdKeepsStatus(s: Nand)
    requires StatusOfWp(s)
    ensures StatusOfWp(DoCmd(s))
  {
    hide Erased, Anded, Ones;
  }

  lemma AddrKeepsStatus(s: Nand)
    ensures DoAddr(s).status == s.status
  {
    hide Or, FullAddress, FullRow;
  }

  lemma {:induction false} RunKeepsStatus(s: Nand, ops: seq<Op>)
    requires StatusOfWp(s)
    ensures StatusOfWp(Run(s, ops))
    decreases |ops|
  {
    hide Step, StatusOfWp;
    if ops != [] {
      RunKeepsStatus(s, ops[..|ops| - 1]);
      StepKeepsStatus(Run(s, ops[..|ops| - 1]), ops[|ops| - 1]);
    }
  }

  /** After any run from power-on, the status command and a read answer 0xc0 while WP is high and 0x40 while it is low;
      then the chip is idle and its array as it was. */
  lemma StatusTellsWp(cells: seq<bv8>, ops: seq<Op>)
    requires Run(PowerOn(cells), ops).ce.Low? && Run(PowerOn(cells), ops).re.High?
    ensures var s := Run(PowerOn(cells), ops);
      var t := SendCmd(s, 0x70);
      && ReadByte(t, 0) == (if s.wp.High? then 0xc0 else 0x40)
      && AfterReads(t, 1).ioStatus.Idle? && AfterReads(t, 1).cells == s.cells
  {
    RunKeepsStatus(PowerOn(cells), ops);
    hide Run;
    StatusAnswered(Run(PowerOn(cells), ops));
  }

  lemma StatusAnswered(s: Nand)
    requires s.ce.Low? && s.re.High?
    ensures var t := SendCmd(s, 0x70);
      ReadByte(t, 0) == s.status && AfterReads(t, 1).ioStatus.Idle? && AfterReads(t, 1).cells == s.cells
  {
    SendCmdIs(s, 0x70);
    hide SendCmd, DoAddr, DoRead, DoReadId, Latch;
    assert AfterReads(SendCmd(s, 0x70), 0) == SendCmd(s, 0x70);
  }

  // ---------- Outside the device, and after RESET ----------

  /** A read past the device fetches nothing and does not move on. */
  lemma ReadPastEnd(s: Nand)
    requires s.ce.Low? && s.re.High? && s.ioStatus.DataRead? && s.address >= 528 * ROWS
    ensures Sampled(s).iopin == s.iopin && ReadData(s) == s
  {
    hide Latch;
  }

  /** RESET leaves the chip as power-on does, but selected as it was and with its last address. */
  lemma ResetIsPowerOn(s: Nand)
    ensures Reset(s) == PowerOn(s.cells).(ce := s.ce, address := s.address)
  {
  }

  // ---------- Pins and addresses ----------

  /** Every pin follows its changes, and a strobe acts on its edge only: a second one without the other edge in between
      does nothing. */
  lemma PinsFollow(s: Nand, p: Pin)
    ensures Step(s, SetCE(p)).ce == Step(s, SetCLE(p)).cle == Step(s, SetALE(p)).ale == p
    ensures Step(s, SetWE(p)).we == Step(s, SetRE(p)).re == Step(s, SetWP(p)).wp == p
    ensures Step(Step(s, SetRE(p)), SetRE(p)) == Step(s, SetRE(p)) && Step(Step(s, SetWE(p)), SetWE(p)) == Step(s, SetWE(p))
    ensures Step(s, SetRE(High)) == s.(re := High) && Step(s, SetWE(Low)) == s.(we := Low)
    ensures s.ce.High? ==> Step(s, SetRE(p)) == s.(re := p) && Step(s, SetWE(p)) == s.(we := p) && Step(s, WriteIO(0)) == s
  {
    hide Latch, Fetch;
  }

  /** The column and three row bytes address byte 528 * row + offset, in 32 bits, whatever the row. */
  lemma AddressWraps(s: Nand, c: bv8, col: bv8, b0: bv8, b1: bv8, b2: bv8)
    requires Sized(s) && s.ce.Low? && (IsPointer(c) || c == 0x80)
    ensures var off := ((if c == 0x80 then s.pageOffset else PointerOffset(c)) + Val(col)) % 0x1_0000;
      Addressed(s, c, col, b0, b1, b2).address == (528 * Row(b0, b1, b2) + off) % 0x1_0000_0000
    ensures Row(b0, b1, b2) == b0 as int + 0x100 * b1 as int + 0x1_0000 * (b2 as int % 128)
  {
    hide PartAddressed, AtByte, SendCmd, SendAddr, Row;
    var off := Column(s, c, col);
    ColumnLatched(s, c, col);
    var r := SendAddr(SendCmd(s, c), col);
    RowByte(r, s, c, off, [], b0);
    assert [] + [b0] == [b0];
    RowByte(SendAddr(r, b0), s, c, off, [b0], b1);
    assert [b0] + [b1] == [b0, b1];
    LastAddressByte(SendAddr(SendAddr(r, b0), b1), s, c, off, b0, b1, b2);
    RowIs(b0, b1, b2);
  }

  lemma LastAddressByte(r: Nand, s: Nand, c: bv8, off: nat, b0: bv8, b1: bv8, b2: bv8)
    requires PartAddressed(r, s, c, off, [b0, b1])
    ensures SendAddr(r, b2).address == (528 * Row(b0, b1, b2) + off) % 0x1_0000_0000
  {
    hide Val, SendAddr, Or, FullRow, Row;
    SendAddrIs(r, b2);
    AddressBytes(b0, b1, b2);
  }

  lemma RowIs(b0: bv8, b1: bv8, b2: bv8)
    ensures Row(b0, b1, b2) == b0 as int + 0x100 * b1 as int + 0x1_0000 * (b2 as int % 128)
  {
  }
}
