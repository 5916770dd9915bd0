/** The write state machine of the 28F128J3A flash. */
module IntelFlash {
  import opened BitFields

  const CHIP_SIZE := 0x200_0000
  const SECTOR_SIZE := 0x4_0000
  const SECTORS := CHIP_SIZE / SECTOR_SIZE
  const BUFFER_SIZE := 16
  const ALL_ONES: bv32 := 0xffff_ffff

  const READ_ARRAY := 0xff
  const READ_ID := 0x90
  const READ_STATUS := 0x70
  const READ_QUERY := 0x98
  const CLEAR_STATUS := 0x50
  const WRITE_BUFFER := 0xe8
  const PROGRAM := 0x40
  const PROGRAM2 := 0x10
  const BLOCK_ERASE := 0x20
  const SUSPEND := 0xb0
  const RESUME := 0xd0
  const LOCK_ACCESS := 0x60
  const CONFIRM := 0xd0

  datatype Mode = Ready | WriteBuffer | Program | BlockErase | LockAccess

  datatype ReadMode = ReadArray | ReadId | ReadStatus | ReadQuery

  /** The buffer program's latches: `pb_count`, `pb_loaded`, `pb_start`, `progbuf_latch_addr`, `pb_buf`. */
  datatype Buffer = Buffer(count: nat, loaded: nat, start: nat, latchAddr: nat, slots: seq<bv32>)

  /** The `_busy` and `_suspended` flags. */
  datatype Activity = Activity(programBusy: bool, progbufBusy: bool, eraseBusy: bool, lockBusy: bool,
                               programSuspended: bool, progbufSuspended: bool, eraseSuspended: bool)

  /** The `_error` flags. */
  datatype Errors = Errors(protection: bool, programSetlb: bool, eraseClearlb: bool, programVolt: bool)

  /** `flash_intel_io`; `mem` is the memory bank behind the chip, word by word. */
  datatype Flash = Flash(
    readMode: ReadMode, mode: Mode, vpen: nat,
    programLatchAddr: nat, programLatchData: bv32, eraseLatchAddr: nat,
    pb: Buffer, act: Activity, err: Errors, lock: seq<bool>, mem: seq<bv32>)

  function Low8(data: bv32): (n: nat)
    ensures n < 0x100
  {
    (data & 0xff) as int
  }

  function And(x: bv32, y: bv32): bv32 {
    x & y
  }

  function Sector(addr: nat): nat {
    addr / SECTOR_SIZE
  }

  function Word(addr: nat): nat {
    addr / 4
  }

  lemma InChipBounds(addr: nat)
    requires addr < CHIP_SIZE
    ensures Sector(addr) < SECTORS && Word(addr) < CHIP_SIZE / 4
    ensures Sector(addr) * SECTOR_SIZE < CHIP_SIZE && Sector(Sector(addr) * SECTOR_SIZE) == Sector(addr)
  {
  }

  function Fill(n: nat): (r: seq<bv32>)
    ensures |r| == n && forall i :: 0 <= i < n ==> r[i] == ALL_ONES
  {
    seq(n, _ => ALL_ONES)
  }

  /** `mem` with the 16 words from word `w` on and-ed with the buffer, slot by word address modulo 16. */
  ghost function Committed(mem: seq<bv32>, w: nat, buf: seq<bv32>): (r: seq<bv32>)
    requires |buf| == BUFFER_SIZE
    ensures |r| == |mem|
    ensures forall j :: 0 <= j < |mem| ==>
      r[j] == if w <= j < w + BUFFER_SIZE then And(mem[j], buf[j % BUFFER_SIZE]) else mem[j]
  {
    seq(|mem|, j requires 0 <= j < |mem| =>
      if w <= j < w + BUFFER_SIZE then And(mem[j], buf[j % BUFFER_SIZE]) else mem[j])
  }

  /** `mem` with the words of sector `n` set to ones. */
  ghost function SectorErased(mem: seq<bv32>, n: nat): (r: seq<bv32>)
    ensures |r| == |mem|
    ensures forall j :: 0 <= j < |mem| ==> r[j] == if Sector(4 * j) == n then ALL_ONES else mem[j]
  {
    seq(|mem|, j requires 0 <= j < |mem| => if Sector(4 * j) == n then ALL_ONES else mem[j])
  }

  ghost predicate Sized(s: Flash) {
    |s.lock| == SECTORS && |s.pb.slots| == BUFFER_SIZE && CHIP_SIZE / 4 <= |s.mem|
  }

  ghost predicate Keeps(s: Flash, r: Flash) {
    Sized(r) && |r.mem| == |s.mem| && r.vpen == s.vpen
  }

  const IDLE := Activity(false, false, false, false, false, false, false)
  const NO_ERRORS := Errors(false, false, false, false)

  ghost function ResetState(mem: seq<bv32>): Flash {
    Flash(ReadArray, Ready, 1, 0, 0, 0, Buffer(0, 0, 0, 0, Fill(BUFFER_SIZE)), IDLE, NO_ERRORS,
          seq(SECTORS, _ => false), mem)
  }

  predicate Locked(s: Flash, addr: nat) {
    Sector(addr) < |s.lock| && s.lock[Sector(addr)]
  }

  predicate DeviceSuspended(a: Activity) {
    a.programSuspended || a.progbufSuspended || a.eraseSuspended
  }

  predicate AddrSuspended(a: Activity, programLatch: nat, start: nat, count: nat, eraseLatch: nat, x: nat) {
    || (a.programSuspended && x == programLatch)
    || (a.progbufSuspended && start <= x < start + count)
    || (a.eraseSuspended && Sector(x) == Sector(eraseLatch))
  }

  // ---------- One word write ----------

  function Suspend(a: Activity): Activity {
    if a.programBusy then a.(programSuspended := true)
    else if a.progbufBusy then a.(progbufSuspended := true)
    else if a.eraseBusy then a.(eraseSuspended := true)
    else a
  }

  function Resume(a: Activity): Activity {
    if a.programSuspended then a.(programSuspended := false)
    else if a.progbufSuspended then a.(progbufSuspended := false)
    else if a.eraseSuspended then a.(eraseSuspended := false)
    else a
  }

  /** init_wsm: the first write of a command. */
  ghost function Start(s: Flash, cmd: nat): (r: Flash)
    requires Sized(s)
    ensures Keeps(s, r)
  {
    if cmd == READ_ARRAY then s.(readMode := ReadArray)
    else if cmd == READ_ID then s.(readMode := ReadId)
    else if cmd == READ_STATUS then s.(readMode := ReadStatus)
    else if cmd == READ_QUERY then s.(readMode := ReadQuery)
    else if cmd == CLEAR_STATUS then s.(err := NO_ERRORS, readMode := ReadArray)
    else if cmd == PROGRAM || cmd == PROGRAM2 then s.(mode := Program)
    else if cmd == WRITE_BUFFER then
      s.(mode := WriteBuffer, readMode := ReadStatus,
         pb := s.pb.(count := 0, loaded := 0, slots := Fill(BUFFER_SIZE)))
    else if cmd == BLOCK_ERASE then s.(mode := BlockErase)
    else if cmd == SUSPEND then s.(act := Suspend(s.act))
    else if cmd == RESUME then s.(act := Resume(s.act))
    else if cmd == LOCK_ACCESS then s.(mode := LockAccess)
    else s
  }

  /** A buffer sequence that fails: both command errors set, back to ready. */
  ghost function BufferFails(s: Flash): Flash {
    s.(err := s.err.(programSetlb := true, eraseClearlb := true), mode := Ready)
  }

  ghost function SetCount(s: Flash, addr: nat, n: nat): (r: Flash)
    requires Sized(s) && 0 < n
    ensures Keeps(s, r)
  {
    var s := s.(pb := s.pb.(count := n, latchAddr := addr));
    if n > BUFFER_SIZE || Sector(addr) != Sector(addr + n - 1) then BufferFails(s) else s
  }

  ghost function LoadSlot(s: Flash, addr: nat, data: bv32): (r: Flash)
    requires Sized(s)
    ensures Keeps(s, r)
  {
    if Sector(addr) != Sector(s.pb.latchAddr) then BufferFails(s)
    else
      s.(pb := s.pb.(start := if s.pb.loaded == 0 then addr else s.pb.start,
                     slots := s.pb.slots[Word(addr) % BUFFER_SIZE := data],
                     loaded := s.pb.loaded + 1))
  }

  /** A command reaches the array or the lock bits. */
  predicate Allowed(locked: bool, suspended: bool, vpen: nat) {
    !locked && !suspended && vpen == 1
  }

  /** The error flags after a program or set-lock command (`erasing` false), an erase or clear-locks command (true). */
  function Verdict(e: Errors, erasing: bool, locked: bool, suspended: bool, vpen: nat): Errors {
    if Allowed(locked, suspended, vpen) then e else
    var e := if erasing then e.(eraseClearlb := true) else e.(programSetlb := true);
    if locked then e.(protection := true) else if suspended then e else e.(programVolt := true)
  }

  ghost function CommitBuffer(s: Flash, cmd: nat): (r: Flash)
    requires Sized(s)
    ensures Keeps(s, r)
  {
    if cmd != CONFIRM then BufferFails(s) else
    var locked, suspended := Locked(s, s.pb.latchAddr), DeviceSuspended(s.act);
    s.(readMode := ReadStatus, mode := Ready, act := s.act.(progbufBusy := false),
       err := Verdict(s.err, false, locked, suspended, s.vpen),
       mem := if Allowed(locked, suspended, s.vpen) then Committed(s.mem, Word(s.pb.start), s.pb.slots) else s.mem)
  }

  ghost function ProgramWord(s: Flash, addr: nat, data: bv32): (r: Flash)
    requires Sized(s) && addr < CHIP_SIZE
    ensures Keeps(s, r)
  {
    var locked := Locked(s, addr);
    var suspended := AddrSuspended(s.act, addr, s.pb.start, s.pb.count, s.eraseLatchAddr, addr);
    s.(programLatchAddr := addr, programLatchData := data, readMode := ReadStatus,
       act := s.act.(programBusy := false), mode := Ready,
       err := Verdict(s.err, false, locked, suspended, s.vpen),
       mem := if Allowed(locked, suspended, s.vpen) then s.mem[Word(addr) := And(s.mem[Word(addr)], data)] else s.mem)
  }

  ghost function EraseSector(s: Flash, addr: nat, cmd: nat): (r: Flash)
    requires Sized(s)
    ensures Keeps(s, r)
  {
    if cmd != CONFIRM then s.(mode := Ready) else
    var locked, suspended := Locked(s, addr), DeviceSuspended(s.act);
    s.(eraseLatchAddr := Sector(addr) * SECTOR_SIZE, readMode := ReadStatus,
       act := s.act.(eraseBusy := false), mode := Ready,
       err := Verdict(s.err, true, locked, suspended, s.vpen),
       mem := if Allowed(locked, suspended, s.vpen) then SectorErased(s.mem, Sector(addr)) else s.mem)
  }

  ghost function AccessLock(s: Flash, addr: nat, cmd: nat): (r: Flash)
    requires Sized(s) && addr < CHIP_SIZE
    ensures Keeps(s, r)
  {
    if cmd != 1 && cmd != CONFIRM then s.(mode := Ready) else
    var suspended := DeviceSuspended(s.act);
    s.(readMode := ReadStatus, act := s.act.(lockBusy := false), mode := Ready,
       err := Verdict(s.err, cmd == CONFIRM, false, suspended, s.vpen),
       lock := if !Allowed(false, suspended, s.vpen) then s.lock
               else if cmd == CONFIRM then seq(|s.lock|, _ => false)
               else s.lock[Sector(addr) := true])
  }

  /** flash_intel_write_word. */
  ghost function Write(s: Flash, addr: nat, data: bv32): (r: Flash)
    requires Sized(s) && addr < CHIP_SIZE
    ensures Keeps(s, r)
  {
    match s.mode
    case Ready => Start(s, Low8(data))
    case WriteBuffer =>
      if s.pb.count == 0 then SetCount(s, addr, Low8(data) + 1)
      else if s.pb.loaded < s.pb.count then LoadSlot(s, addr, data)
      else CommitBuffer(s, Low8(data))
    case Program => ProgramWord(s, addr, data)
    case BlockErase => EraseSector(s, addr, Low8(data))
    case LockAccess => AccessLock(s, addr, Low8(data))
  }

  datatype Op = Op(addr: nat, data: bv32)

  ghost predicate InChip(ops: seq<Op>) {
    forall i :: 0 <= i < |ops| ==> ops[i].addr < CHIP_SIZE
  }

  ghost function Run(s: Flash, ops: seq<Op>): (r: Flash)
    requires Sized(s) && InChip(ops)
    ensures Keeps(s, r)
  {
    if ops == [] then s else
    var n := |ops| - 1;
    Write(Run(s, ops[..n]), ops[n].addr, ops[n].data)
  }

  // ---------- Nothing is busy or suspended between writes ----------

  ghost predicate Quiet(s: Flash) {
    && Sized(s) && s.act == IDLE
    && (s.mode.WriteBuffer? ==> s.pb.loaded <= s.pb.count <= BUFFER_SIZE)
  }

  lemma ResetQuiet(mem: seq<bv32>)
    requires CHIP_SIZE / 4 <= |mem|
    ensures var r := ResetState(mem);
      && Quiet(r) && r.mode.Ready? && r.mem == mem && r.readMode.ReadArray? && r.vpen == 1
      && r.err == Errors(false, false, false, false) && forall i :: 0 <= i < |r.lock| ==> !r.lock[i]
  {
  }

  /** A write leaves every busy and suspended flag clear, so the suspend branches are never taken. */
  lemma WriteQuiet(s: Flash, addr: nat, data: bv32)
    requires Quiet(s) && addr < CHIP_SIZE
    ensures Quiet(Write(s, addr, data))
    ensures !DeviceSuspended(s.act) && !AddrSuspended(s.act, addr, s.pb.start, s.pb.count, s.eraseLatchAddr, addr)
  {
    hide Low8, Word, Sector, Locked, Committed, SectorErased, And, Fill;
  }

  /** How many writes at most until the machine is ready again. */
  ghost function Remaining(s: Flash): nat
    requires Quiet(s)
  {
    match s.mode
    case Ready => 0
    case WriteBuffer => if s.pb.count == 0 then 18 else 1 + s.pb.count - s.pb.loaded
    case _ => 1
  }

  /** A write that does not make the machine ready brings it closer. */
  lemma WriteProgresses(s: Flash, addr: nat, data: bv32)
    requires Quiet(s) && addr < CHIP_SIZE && !s.mode.Ready?
    ensures Quiet(Write(s, addr, data))
    ensures Write(s, addr, data).mode.Ready? || Remaining(Write(s, addr, data)) < Remaining(s)
  {
    WriteQuiet(s, addr, data);
    hide Low8, Word, Sector, Locked, AddrSuspended, Committed, SectorErased, And, Fill;
    match s.mode {
      case WriteBuffer =>
      case _ =>
    }
  }

  // ---------- The status register ----------

  function Flag(on: bool, bit: bv32): bv32 {
    if on then bit else 0
  }

  /** The status register of one chip; bit 7 is set while nothing is busy. */
  function Status(a: Activity, e: Errors): bv32 {
    Flag(!a.programBusy && !a.progbufBusy && !a.lockBusy && !a.eraseBusy, 0x80) | Flag(a.eraseSuspended, 0x40)
    | Flag(e.eraseClearlb, 0x20) | Flag(e.programSetlb, 0x10) | Flag(e.programVolt, 0x08)
    | Flag(a.programSuspended, 0x04) | Flag(e.protection, 0x02)
  }

  /** Both chips answer on one 32-bit bus. */
  function BothChips(x: bv32): bv32 {
    ((x & 0xffff) << (16 as bv6)) | (x & 0xffff)
  }

  /** The write that carries a command out. */
  ghost predicate Executes(s: Flash, op: Op) {
    match s.mode
    case Ready => false
    case WriteBuffer => s.pb.count > 0 && s.pb.loaded == s.pb.count && Low8(op.data) == CONFIRM
    case Program => true
    case BlockErase => Low8(op.data) == CONFIRM
    case LockAccess => Low8(op.data) == CONFIRM || Low8(op.data) == 1
  }

  lemma VerdictStatus(erasing: bool, locked: bool, vpen: nat)
    ensures var e := Verdict(NO_ERRORS, erasing, locked, false, vpen);
      (Status(IDLE, e) == 0x80 <==> !locked && vpen == 1) && (Status(IDLE, e) & 0x02 != 0 <==> locked)
  {
  }

  /** Once a command is carried out, the status reads 0x80 exactly when the command was allowed, and its protection
      bit is set exactly when a lock refused it. */
  lemma StatusTellsOutcome(s: Flash, op: Op)
    requires Quiet(s) && s.err == NO_ERRORS && op.addr < CHIP_SIZE && Executes(s, op)
    ensures var r := Write(s, op.addr, op.data);
      var locked := !s.mode.LockAccess? && Locked(s, if s.mode.WriteBuffer? then s.pb.latchAddr else op.addr);
      && r.readMode == ReadStatus
      && (Status(r.act, r.err) == 0x80 <==> !locked && s.vpen == 1)
      && (Status(r.act, r.err) & 0x02 != 0 <==> locked)
  {
    hide Low8, Word, Sector, Locked, Committed, SectorErased, And, Fill, Status;
    WriteQuiet(s, op.addr, op.data);
    var locked := !s.mode.LockAccess? && Locked(s, if s.mode.WriteBuffer? then s.pb.latchAddr else op.addr);
    VerdictStatus(true, locked, s.vpen);
    VerdictStatus(false, locked, s.vpen);
  }

  // ---------- Reading ----------

  /** The query table that `init_querytable` fills in. */
  function QueryTable(i: nat): bv32 {
    match i
    case 0x00 => 0x00890089
    case 0x01 => 0x00180018
    case 0x02 => 0x00010001
    case 0x10 => 0x00510051
    case 0x11 => 0x00520052
    case 0x12 => 0x00590059
    case 0x13 => 0x00010001
    case 0x15 => 0x00310031
    case 0x1b => 0x00270027
    case 0x1c => 0x00360036
    case 0x1f => 0x00070007
    case 0x20 => 0x00070007
    case 0x21 => 0x000A000A
    case 0x23 => 0x00040004
    case 0x24 => 0x00040004
    case 0x25 => 0x00040004
    case 0x27 => 0x00180018
    case 0x28 => 0x00020002
    case 0x2a => 0x00050005
    case 0x2c => 0x00010001
    case 0x2d => 0x007F007F
    case 0x30 => 0x00020002
    case 0x31 => 0x00500050
    case 0x32 => 0x00520052
    case 0x33 => 0x00490049
    case 0x34 => 0x00310031
    case 0x35 => 0x00320032
    case 0x36 => 0x00CE00CE
    case 0x3a => 0x00010001
    case 0x3b => 0x00010001
    case 0x3c => 0x00010001
    case 0x3d => 0x00330033
    case 0x3f => 0x00010001
    case 0x40 => 0x00000000
    case 0x41 => 0x00010001
    case 0x42 => 0x00030003
    case 0x43 => 0x00030003
    case 0x44 => 0x00030003
    case _ => 0
  }

  const QUERY_TABLE_SIZE := 0x47
  const MANUFACTURER_CODE: bv32 := 0x89
  const DEVICE_CODE: bv32 := 0x18

  /** flash_intel_read_word. In the ID mode only the lowest bit of the word address is looked at, so the branch that
      would answer with a lock bit is never taken. */
  function ReadWord(mode: ReadMode, a: Activity, e: Errors, stored: bv32, addr: nat): bv32 {
    match mode
    case ReadArray => stored
    case ReadId => BothChips(if Word(addr) % 2 == 0 then MANUFACTURER_CODE else DEVICE_CODE)
    case ReadStatus => BothChips(Status(a, e))
    case ReadQuery =>
      var i := Word(addr % 0x1_0000);
      if i < QUERY_TABLE_SIZE then QueryTable(i) else 0
  }

  /** What the guest reads after a write. */
  ghost function ReadAfter(s: Flash, op: Op, addr: nat): bv32
    requires Sized(s) && op.addr < CHIP_SIZE && addr < CHIP_SIZE
  {
    var r := Write(s, op.addr, op.data);
    ReadWord(r.readMode, r.act, r.err, r.mem[Word(addr)], addr)
  }

  /** From ready, each read command makes every read answer for it, whatever the mode was: array words, the two ID codes
      by turns, the status, or the query table; the first write of any other command leaves the answers as they were,
      but for a buffered program, which answers with the status. A command carried out makes every read return the
      status. */
  lemma ReadsAfter(s: Flash, op: Op, addr: nat)
    requires Quiet(s) && op.addr < CHIP_SIZE && addr < CHIP_SIZE
    ensures var x, cmd := ReadAfter(s, op, addr), Low8(op.data);
      && (s.mode.Ready? ==>
            && Write(s, op.addr, op.data).mem == s.mem
            && Write(s, op.addr, op.data).err == (if cmd == 0x50 then NO_ERRORS else s.err)
            && x == if cmd == 0xff || cmd == 0x50 then s.mem[addr / 4]
                    else if cmd == 0x90 then (if addr / 4 % 2 == 0 then 0x0089_0089 else 0x0018_0018)
                    else if cmd == 0x70 || cmd == 0xe8 then BothChips(Status(IDLE, s.err))
                    else if cmd == 0x98 then (if addr % 0x1_0000 < 4 * QUERY_TABLE_SIZE then QueryTable(addr % 0x1_0000 / 4) else 0)
                    else ReadWord(s.readMode, IDLE, s.err, s.mem[Word(addr)], addr))
      && (Executes(s, op) ==> x == BothChips(Status(IDLE, Write(s, op.addr, op.data).err)))
  {
    WriteQuiet(s, op.addr, op.data);
    assert BothChips(MANUFACTURER_CODE) == 0x0089_0089 && BothChips(DEVICE_CODE) == 0x0018_0018;
    hide Low8, Word, Sector, Locked, Committed, SectorErased, And, Fill, Status, BothChips, QueryTable;
  }

  /** What each of the two 16-bit chips answers at query word `i`, after the read-query command. */
  ghost function Queried(s: Flash, i: nat): (n: nat)
    requires Sized(s) && i < 0x4000
  {
    PerChip(ReadAfter(s, Op(0, 0x98), 4 * i))
  }

  function PerChip(x: bv32): nat {
    (x & 0xffff) as nat
  }

  /** The query table begins with "QRY" and describes this chip pair: its size, its sectors and its write buffer. */
  lemma QueryDescribesChip(s: Flash)
    requires Quiet(s) && s.mode.Ready?
    ensures Queried(s, 0x10) == 'Q' as nat && Queried(s, 0x11) == 'R' as nat && Queried(s, 0x12) == 'Y' as nat
    ensures CHIP_SIZE == 2 * Pow2(Queried(s, 0x27))
    ensures SECTORS == Queried(s, 0x2d) + 0x100 * Queried(s, 0x2e) + 1
    ensures SECTOR_SIZE == 2 * 0x100 * (Queried(s, 0x2f) + 0x100 * Queried(s, 0x30))
    ensures 4 * BUFFER_SIZE == 2 * Pow2(Queried(s, 0x2a) + 0x100 * Queried(s, 0x2b))
  {
    hide PerChip, QueryTable, Queried, Quiet, Pow2;
    QueriedIs(s);
    TableValues();
    Powers();
  }

  lemma Powers()
    ensures Pow2(24) == 0x100_0000 && Pow2(5) == 32
  {
    Pow2Values();
  }

  lemma QueriedIs(s: Flash)
    requires Quiet(s) && s.mode.Ready?
    ensures Sized(s) && forall i :: 0 <= i < QUERY_TABLE_SIZE ==> Queried(s, i) == PerChip(QueryTable(i))
  {
    QuietSized(s);
    hide Quiet, PerChip, QueryTable, Queried;
    forall i | 0 <= i < QUERY_TABLE_SIZE
      ensures Queried(s, i) == PerChip(QueryTable(i))
    {
      QueriedWord(s, i);
    }
  }

  lemma QueriedWord(s: Flash, i: nat)
    requires Sized(s) && s.mode.Ready? && i < QUERY_TABLE_SIZE
    ensures Queried(s, i) == PerChip(QueryTable(i))
  {
    QueryRead(s, 4 * i);
    hide PerChip, QueryTable, ReadAfter;
  }

  lemma QueryRead(s: Flash, addr: nat)
    requires Sized(s) && s.mode.Ready? && addr < 4 * QUERY_TABLE_SIZE
    ensures ReadAfter(s, Op(0, 0x98), addr) == QueryTable(addr / 4)
  {
    QueryCommand();
    hide Low8, QueryTable, SetCount, LoadSlot, CommitBuffer, ProgramWord, EraseSector, AccessLock;
    assert Write(s, 0, 0x98) == s.(readMode := ReadQuery);
  }

  lemma QueryCommand()
    ensures Low8(0x98) == READ_QUERY
  {
  }

  lemma TableValues()
    ensures PerChip(QueryTable(0x10)) == 0x51 && PerChip(QueryTable(0x11)) == 0x52 && PerChip(QueryTable(0x12)) == 0x59
    ensures PerChip(QueryTable(0x27)) == 24 && PerChip(QueryTable(0x2a)) == 5 && PerChip(QueryTable(0x2b)) == 0
    ensures PerChip(QueryTable(0x2d)) == 0x7f && PerChip(QueryTable(0x2e)) == 0
    ensures PerChip(QueryTable(0x2f)) == 0 && PerChip(QueryTable(0x30)) == 2
  {
  }

  // ---------- Every run ----------

  ghost function StateAt(s: Flash, ops: seq<Op>, k: nat): (r: Flash)
    requires Sized(s) && InChip(ops) && k <= |ops|
    ensures Keeps(s, r)
  {
    Run(s, ops[..k])
  }

  lemma StateNext(s: Flash, ops: seq<Op>, k: nat)
    requires Sized(s) && InChip(ops) && k < |ops|
    ensures StateAt(s, ops, k + 1) == Write(StateAt(s, ops, k), ops[k].addr, ops[k].data)
  {
    hide Write;
    assert ops[..k + 1][..k] == ops[..k];
  }

  lemma {:induction false} RunQuiet(s: Flash, ops: seq<Op>, k: nat)
    requires Quiet(s) && InChip(ops) && k <= |ops|
    ensures Quiet(StateAt(s, ops, k))
  {
    hide Write, Quiet;
    if k != 0 {
      QuietSized(s);
      RunQuiet(s, ops, k - 1);
      StateNext(s, ops, k - 1);
      WriteQuiet(StateAt(s, ops, k - 1), ops[k - 1].addr, ops[k - 1].data);
    }
  }

  lemma QuietSized(s: Flash)
    requires Quiet(s)
    ensures Sized(s)
  {
  }

  /** From any state the machine is ready again within 18 writes, whatever they are. */
  lemma ReturnsToReady(s: Flash, ops: seq<Op>)
    requires Quiet(s) && InChip(ops) && Remaining(s) <= |ops|
    ensures Remaining(s) <= 18
    ensures exists k :: 0 <= k <= Remaining(s) && StateAt(s, ops, k).mode.Ready?
  {
    StillBusy(s, ops, Remaining(s));
    RunQuiet(s, ops, Remaining(s));
    assert Remaining(StateAt(s, ops, Remaining(s))) == 0 ==> StateAt(s, ops, Remaining(s)).mode.Ready?;
  }

  lemma {:induction false} StillBusy(s: Flash, ops: seq<Op>, k: nat)
    requires Quiet(s) && InChip(ops) && k <= |ops|
    ensures Quiet(StateAt(s, ops, k))
    ensures (exists i :: 0 <= i <= k && StateAt(s, ops, i).mode.Ready?)
         || Remaining(StateAt(s, ops, k)) + k <= Remaining(s)
  {
    RunQuiet(s, ops, k);
    if k == 0 {
      assert ops[..0] == [];
    } else {
      StillBusy(s, ops, k - 1);
      StateNext(s, ops, k - 1);
      var t := StateAt(s, ops, k - 1);
      hide StateAt, Write, Remaining;
      if !t.mode.Ready? {
        WriteProgresses(t, ops[k - 1].addr, ops[k - 1].data);
      }
    }
  }

  /** Some bit is clear in `x` and set in `y`. */
  ghost predicate Rises(x: bv32, y: bv32) {
    And(y, !x) != 0
  }

  lemma RisesFacts(x: bv32, y: bv32, z: bv32)
    ensures !Rises(x, x) && !Rises(x, And(x, y))
    ensures Rises(x, z) ==> Rises(x, y) || Rises(y, z)
  {
  }

  /** The confirmed erase of an unlocked sector. */
  ghost predicate Erases(s: Flash, op: Op) {
    s.mode.BlockErase? && Low8(op.data) == CONFIRM && !Locked(s, op.addr)
  }

  lemma OtherWritesKeepMemory(s: Flash, addr: nat, data: bv32, n: nat)
    requires Sized(s) && addr < CHIP_SIZE
    ensures Start(s, n).mem == s.mem && LoadSlot(s, addr, data).mem == s.mem && AccessLock(s, addr, n).mem == s.mem
    ensures n > 0 ==> SetCount(s, addr, n).mem == s.mem
  {
    hide Word, Sector, Fill, Verdict, Allowed;
  }

  lemma CommitOnlyClears(s: Flash, cmd: nat, j: nat)
    requires Sized(s) && j < |s.mem|
    ensures !Rises(s.mem[j], CommitBuffer(s, cmd).mem[j])
  {
    RisesFacts(s.mem[j], s.pb.slots[j % BUFFER_SIZE], 0);
    hide Rises, And, Locked, Verdict, Allowed;
  }

  lemma ProgramOnlyClears(s: Flash, addr: nat, data: bv32, j: nat)
    requires Sized(s) && addr < CHIP_SIZE && j < |s.mem|
    ensures !Rises(s.mem[j], ProgramWord(s, addr, data).mem[j])
  {
    RisesFacts(s.mem[j], data, 0);
    hide Rises, And, Locked, Verdict, Allowed, AddrSuspended;
  }

  lemma EraseRaisesItsSector(s: Flash, addr: nat, cmd: nat, j: nat)
    requires Sized(s) && j < |s.mem|
    ensures Rises(s.mem[j], EraseSector(s, addr, cmd).mem[j]) ==>
      cmd == CONFIRM && !Locked(s, addr) && Sector(addr) == Sector(4 * j)
  {
    RisesFacts(s.mem[j], 0, 0);
    hide Rises, And, Locked, Verdict, Sector;
  }

  /** Without a confirmed erase of its unlocked sector, a word only loses bits. */
  lemma WriteOnlyClearsBits(s: Flash, op: Op, j: nat)
    requires Sized(s) && op.addr < CHIP_SIZE && j < |s.mem|
    ensures Rises(s.mem[j], Write(s, op.addr, op.data).mem[j]) ==> Erases(s, op) && Sector(op.addr) == Sector(4 * j)
  {
    var n := Low8(op.data);
    RisesFacts(s.mem[j], 0, 0);
    OtherWritesKeepMemory(s, op.addr, op.data, n);
    OtherWritesKeepMemory(s, op.addr, op.data, n + 1);
    CommitOnlyClears(s, n, j);
    ProgramOnlyClears(s, op.addr, op.data, j);
    EraseRaisesItsSector(s, op.addr, n, j);
    hide Low8, Rises, And, Sector, Locked, Start, SetCount, LoadSlot, CommitBuffer, ProgramWord, EraseSector, AccessLock;
  }

  /** In every run, a bit of a word that goes from 0 to 1 was erased on the way, its sector unlocked. */
  lemma {:induction false} BitsRiseOnlyByErase(s: Flash, ops: seq<Op>, i: nat, k: nat, j: nat)
    requires Sized(s) && InChip(ops) && i <= k <= |ops| && j < |s.mem|
    ensures Rises(StateAt(s, ops, i).mem[j], StateAt(s, ops, k).mem[j]) ==>
      exists m :: i <= m < k && Erases(StateAt(s, ops, m), ops[m]) && Sector(ops[m].addr) == Sector(4 * j)
  {
    hide StateAt, Write, Rises, Erases, Sector;
    if i == k {
      RisesFacts(StateAt(s, ops, i).mem[j], 0, 0);
    } else {
      BitsRiseOnlyByErase(s, ops, i, k - 1, j);
      StateNext(s, ops, k - 1);
      WriteOnlyClearsBits(StateAt(s, ops, k - 1), ops[k - 1], j);
      RisesFacts(StateAt(s, ops, i).mem[j], StateAt(s, ops, k - 1).mem[j], StateAt(s, ops, k).mem[j]);
    }
  }

  // ---------- Locked sectors ----------

  /** A buffer load whose word lies in the 16-word window that the first load opened. */
  ghost predicate InWindow(s: Flash, op: Op) {
    s.mode.WriteBuffer? && 0 < s.pb.loaded < s.pb.count ==>
      Word(s.pb.start) <= Word(op.addr) < Word(s.pb.start) + BUFFER_SIZE
  }

  /** Every slot that would change memory belongs to a word of the latched sector. */
  ghost predicate SlotsInSector(s: Flash) {
    && Sized(s)
    && (s.mode.WriteBuffer? && (s.pb.loaded == 0 || s.pb.count == 0) ==> s.pb.slots == Fill(BUFFER_SIZE))
    && (s.mode.WriteBuffer? ==>
          forall j :: Word(s.pb.start) <= j < Word(s.pb.start) + BUFFER_SIZE && s.pb.slots[j % BUFFER_SIZE] != ALL_ONES ==>
            Sector(4 * j) == Sector(s.pb.latchAddr))
  }

  ghost predicate ClearsLocks(s: Flash, op: Op) {
    s.mode.LockAccess? && Low8(op.data) == CONFIRM
  }

  lemma LoadKeepsSlots(s: Flash, op: Op)
    requires SlotsInSector(s) && op.addr < CHIP_SIZE && InWindow(s, op)
    requires s.mode.WriteBuffer? && s.pb.loaded < s.pb.count
    ensures SlotsInSector(LoadSlot(s, op.addr, op.data))
  {
    var r := LoadSlot(s, op.addr, op.data);
    if Sector(op.addr) == Sector(s.pb.latchAddr) {
      forall j | Word(r.pb.start) <= j < Word(r.pb.start) + BUFFER_SIZE && r.pb.slots[j % BUFFER_SIZE] != ALL_ONES
        ensures Sector(4 * j) == Sector(r.pb.latchAddr)
      {
        SameSlot(Word(r.pb.start), j, Word(op.addr));
        assert Sector(4 * Word(op.addr)) == Sector(op.addr);
        if j % BUFFER_SIZE != Word(op.addr) % BUFFER_SIZE {
          assert r.pb.slots[j % BUFFER_SIZE] == s.pb.slots[j % BUFFER_SIZE];
        }
      }
    }
  }

  lemma SameSlot(w: nat, a: nat, b: nat)
    requires w <= a < w + BUFFER_SIZE && w <= b < w + BUFFER_SIZE
    ensures a % BUFFER_SIZE == b % BUFFER_SIZE ==> a == b
  {
  }

  lemma WriteKeepsSlots(s: Flash, op: Op)
    requires SlotsInSector(s) && op.addr < CHIP_SIZE && InWindow(s, op)
    ensures SlotsInSector(Write(s, op.addr, op.data))
  {
    hide Low8, Word, Sector, Locked, AddrSuspended, Committed, SectorErased, And, Fill;
    match s.mode {
      case WriteBuffer =>
        if s.pb.count == 0 {
        } else if s.pb.loaded < s.pb.count {
          LoadKeepsSlots(s, op);
          hide LoadSlot;
        }
      case _ =>
    }
  }

  lemma LockedWordKept(s: Flash, op: Op, j: nat)
    requires SlotsInSector(s) && op.addr < CHIP_SIZE && j < CHIP_SIZE / 4 && Locked(s, 4 * j)
    ensures Write(s, op.addr, op.data).mem[j] == s.mem[j]
    ensures !ClearsLocks(s, op) ==> Locked(Write(s, op.addr, op.data), 4 * j)
  {
    hide Low8, And;
    match s.mode {
      case WriteBuffer => AndOnes(s.mem[j]); hide Sector;
      case Program => assert Word(op.addr) == j ==> Sector(op.addr) == Sector(4 * j);
      case _ => hide Word;
    }
  }

  lemma AndOnes(x: bv32)
    ensures And(x, ALL_ONES) == x
  {
  }

  /** A word of a locked sector keeps its value until the clear-locks command, if every load stays in its window. */
  lemma {:induction false} LockedWordSafe(s: Flash, ops: seq<Op>, j: nat, k: nat)
    requires SlotsInSector(s) && InChip(ops) && j < CHIP_SIZE / 4 && Locked(s, 4 * j) && k <= |ops|
    requires forall i :: 0 <= i < k ==> var t := StateAt(s, ops, i);
      t.mode.WriteBuffer? && 0 < t.pb.loaded < t.pb.count ==> t.pb.start / 4 <= ops[i].addr / 4 < t.pb.start / 4 + 16
    requires forall i :: 0 <= i < k ==> !(StateAt(s, ops, i).mode.LockAccess? && Low8(ops[i].data) == 0xd0)
    ensures SlotsInSector(StateAt(s, ops, k))
    ensures StateAt(s, ops, k).mem[j] == s.mem[j] && Locked(StateAt(s, ops, k), 4 * j)
  {
    if k == 0 {
      assert ops[..0] == [];
    } else {
      LockedWordSafe(s, ops, j, k - 1);
      StateNext(s, ops, k - 1);
      var t := StateAt(s, ops, k - 1);
      assert InWindow(t, ops[k - 1]) && !ClearsLocks(t, ops[k - 1]);
      hide StateAt, Write, InWindow, ClearsLocks, SlotsInSector, Locked;
      WriteKeepsSlots(t, ops[k - 1]);
      LockedWordKept(t, ops[k - 1], j);
    }
  }

  lemma CommandBytes()
    ensures Low8(0xe8) == WRITE_BUFFER && Low8(0x40) == PROGRAM && Low8(0xd0) == CONFIRM && Low8(1) == 1 && Low8(0) == 0
  {
  }

  // ---------- Whole commands, in plain numbers ----------

  /** The error flags after a command that a locked sector, or else a programming voltage that is off, refuses. */
  function Refused(e: Errors, erasing: bool, locked: bool): Errors {
    Errors(e.protection || locked, e.programSetlb || !erasing, e.eraseClearlb || erasing, e.programVolt || !locked)
  }

  lemma WordCodes()
    ensures Low8(0x40) == PROGRAM && Low8(0x10) == PROGRAM2 && Low8(0x20) == BLOCK_ERASE && Low8(0x60) == LOCK_ACCESS
    ensures Low8(0xd0) == CONFIRM && Low8(0x01) == 1
  {
  }

  lemma VerdictIs(e: Errors, erasing: bool, locked: bool, vpen: nat)
    ensures Verdict(e, erasing, locked, false, vpen) == if vpen == 1 && !locked then e else Refused(e, erasing, locked)
  {
  }

  /** A word program ands its data into the addressed word of an unlocked sector while programming is enabled, and
      otherwise only sets its error flags. */
  lemma ProgramsWord(s: Flash, command: bv32, a: nat, b: nat, data: bv32)
    requires Quiet(s) && s.mode.Ready? && a < CHIP_SIZE && b < CHIP_SIZE && (command == 0x40 || command == 0x10)
    ensures b / 0x4_0000 < |s.lock| && b / 4 < |s.mem|
    ensures var r := Run(s, [Op(a, command), Op(b, data)]);
      var locked := s.lock[b / 0x4_0000];
      && r.mode.Ready? && r.lock == s.lock
      && r.mem == (if s.vpen == 1 && !locked then s.mem[b / 4 := s.mem[b / 4] & data] else s.mem)
      && r.err == if s.vpen == 1 && !locked then s.err else Refused(s.err, false, locked)
  {
    WordCodes();
    InChipBounds(b);
    Run2(s, Op(a, command), Op(b, data));
    ProgramSteps(s, command, a, b, data);
    hide Run, Write, Quiet;
  }

  lemma ProgramSteps(s: Flash, command: bv32, a: nat, b: nat, data: bv32)
    requires Quiet(s) && s.mode.Ready? && a < CHIP_SIZE && b < CHIP_SIZE && (command == 0x40 || command == 0x10)
    ensures b / 0x4_0000 < |s.lock| && b / 4 < |s.mem|
    ensures var r := Write(Write(s, a, command), b, data);
      var locked := s.lock[b / 0x4_0000];
      && r.mode.Ready? && r.lock == s.lock
      && r.mem == (if s.vpen == 1 && !locked then s.mem[b / 4 := s.mem[b / 4] & data] else s.mem)
      && r.err == if s.vpen == 1 && !locked then s.err else Refused(s.err, false, locked)
  {
    WordCodes();
    VerdictIs(s.err, false, s.lock[b / 0x4_0000], s.vpen);
    hide Low8, Verdict, Refused, Fill;
  }

  /** A confirmed erase sets every word of the addressed unlocked sector to ones while programming is enabled, and no
      other word; otherwise it only sets its error flags. */
  lemma ErasesSector(s: Flash, a: nat, b: nat)
    requires Quiet(s) && s.mode.Ready? && a < CHIP_SIZE && b < CHIP_SIZE
    ensures b / 0x4_0000 < |s.lock|
    ensures var r := Run(s, [Op(a, 0x20), Op(b, 0xd0)]);
      var locked := s.lock[b / 0x4_0000];
      && r.mode.Ready? && r.lock == s.lock && |r.mem| == |s.mem|
      && (forall j :: 0 <= j < |s.mem| ==>
            r.mem[j] == if s.vpen == 1 && !locked && 4 * j / 0x4_0000 == b / 0x4_0000 then 0xffff_ffff else s.mem[j])
      && r.err == if s.vpen == 1 && !locked then s.err else Refused(s.err, true, locked)
  {
    InChipBounds(b);
    Run2(s, Op(a, 0x20), Op(b, 0xd0));
    EraseSteps(s, a, b);
    hide Run, Write, Quiet;
  }

  lemma EraseSteps(s: Flash, a: nat, b: nat)
    requires Quiet(s) && s.mode.Ready? && a < CHIP_SIZE && b < CHIP_SIZE
    ensures b / 0x4_0000 < |s.lock|
    ensures var r := Write(Write(s, a, 0x20), b, 0xd0);
      var locked := s.lock[b / 0x4_0000];
      && r.mode.Ready? && r.lock == s.lock && |r.mem| == |s.mem|
      && (forall j :: 0 <= j < |s.mem| ==>
            r.mem[j] == if s.vpen == 1 && !locked && 4 * j / 0x4_0000 == b / 0x4_0000 then 0xffff_ffff else s.mem[j])
      && r.err == if s.vpen == 1 && !locked then s.err else Refused(s.err, true, locked)
  {
    WordCodes();
    VerdictIs(s.err, true, s.lock[b / 0x4_0000], s.vpen);
    hide Low8, Verdict, Refused, Fill;
  }

  /** The set-lock command locks the addressed sector and no other; the clear-locks command unlocks them all. Both keep
      the memory, and with programming off they only set their error flags. */
  lemma LocksSectors(s: Flash, a: nat, b: nat)
    requires Quiet(s) && s.mode.Ready? && a < CHIP_SIZE && b < CHIP_SIZE
    ensures var r := Run(s, [Op(a, 0x60), Op(b, 0x01)]);
      && r.mode.Ready? && r.mem == s.mem && |r.lock| == |s.lock| == 128
      && (forall i :: 0 <= i < 128 ==> r.lock[i] == (s.lock[i] || (s.vpen == 1 && i == b / 0x4_0000)))
      && r.err == if s.vpen == 1 then s.err else Refused(s.err, false, false)
    ensures var r := Run(s, [Op(a, 0x60), Op(b, 0xd0)]);
      && r.mode.Ready? && r.mem == s.mem && |r.lock| == |s.lock| == 128
      && (forall i :: 0 <= i < 128 ==> r.lock[i] == (s.lock[i] && s.vpen != 1))
      && r.err == if s.vpen == 1 then s.err else Refused(s.err, true, false)
  {
    InChipBounds(b);
    Run2(s, Op(a, 0x60), Op(b, 0x01));
    Run2(s, Op(a, 0x60), Op(b, 0xd0));
    WordCodes();
    VerdictIs(s.err, false, false, s.vpen);
    VerdictIs(s.err, true, false, s.vpen);
    hide Run, Low8, Verdict, Refused, Fill;
  }

  /** A buffered program of more than 16 words, or of words that do not end in the sector of the count write, is refused
      at once: both command errors, and the memory as it was. */
  lemma BadCountRefused(s: Flash, a: nat, b: nat, count: bv32)
    requires Quiet(s) && s.mode.Ready? && a < CHIP_SIZE && b < CHIP_SIZE
    requires var n := Low8(count) + 1; n > 16 || b / 0x4_0000 != (b + n - 1) / 0x4_0000
    ensures var r := Run(s, [Op(a, 0xe8), Op(b, count)]);
      && r.mode.Ready? && r.mem == s.mem && r.lock == s.lock
      && r.err == Errors(s.err.protection, true, true, s.err.programVolt)
  {
    CommandBytes();
    Run2(s, Op(a, 0xe8), Op(b, count));
    hide Run, Low8, Fill;
  }

  /** What the status register reads after a command: ready, and each error in its bit. */
  lemma StatusBits(e: Errors)
    ensures Status(IDLE, e) == 0x80 + (if e.eraseClearlb then 0x20 else 0) + (if e.programSetlb then 0x10 else 0)
                               + (if e.programVolt then 0x08 else 0) + (if e.protection then 0x02 else 0)
  {
  }

  // ---------- Buffered programming and word programming ----------

  ghost predicate OneSector(ws: seq<Op>, n: nat) {
    forall i :: 0 <= i < |ws| ==> ws[i].addr < CHIP_SIZE && Sector(ws[i].addr) == n
  }

  /** The write buffer after the loads `ws`. */
  ghost function Slots(ws: seq<Op>): (r: seq<bv32>)
    ensures |r| == BUFFER_SIZE
  {
    if ws == [] then Fill(BUFFER_SIZE) else
    var op := ws[|ws| - 1];
    Slots(ws[..|ws| - 1])[Word(op.addr) % BUFFER_SIZE := op.data]
  }

  /** The memory after programming `ws` word by word. */
  ghost function Programmed(mem: seq<bv32>, ws: seq<Op>): (r: seq<bv32>)
    requires InChip(ws) && CHIP_SIZE / 4 <= |mem|
    ensures |r| == |mem|
  {
    if ws == [] then mem else
    var op := ws[|ws| - 1];
    var m := Programmed(mem, ws[..|ws| - 1]);
    m[Word(op.addr) := And(m[Word(op.addr)], op.data)]
  }

  lemma {:induction false} RunAppend(s: Flash, a: seq<Op>, b: seq<Op>)
    requires Sized(s) && InChip(a) && InChip(b)
    ensures InChip(a + b) && Run(s, a + b) == Run(Run(s, a), b)
  {
    hide Write;
    if b == [] {
      assert a + b == a;
    } else {
      var n := |b| - 1;
      RunAppend(s, a, b[..n]);
      assert (a + b)[..|a + b| - 1] == a + b[..n];
    }
  }

  lemma Run1(s: Flash, a: Op)
    requires Sized(s) && a.addr < CHIP_SIZE
    ensures InChip([a]) && Run(s, [a]) == Write(s, a.addr, a.data)
  {
    hide Write;
    assert [a][..0] == [];
  }

  lemma Run2(s: Flash, a: Op, b: Op)
    requires Sized(s) && a.addr < CHIP_SIZE && b.addr < CHIP_SIZE
    ensures InChip([a, b]) && Run(s, [a, b]) == Write(Write(s, a.addr, a.data), b.addr, b.data)
  {
    hide Write;
    Run1(s, a);
    Run1(Write(s, a.addr, a.data), b);
    RunAppend(s, [a], [b]);
    assert [a] + [b] == [a, b];
  }

  lemma {:induction false} LoadsFillSlots(s: Flash, ws: seq<Op>, n: nat)
    requires Sized(s) && s.mode.WriteBuffer? && s.pb.loaded == 0 && s.pb.slots == Fill(BUFFER_SIZE)
    requires OneSector(ws, n) && Sector(s.pb.latchAddr) == n && |ws| <= s.pb.count
    ensures InChip(ws)
    ensures Run(s, ws) == s.(pb := s.pb.(loaded := |ws|, start := if ws == [] then s.pb.start else ws[0].addr, slots := Slots(ws)))
  {
    if ws != [] {
      LoadsFillSlots(s, ws[..|ws| - 1], n);
      hide Word, Sector;
    }
  }

  /** The bus writes of one buffered program: command, count, loads, confirm. */
  function BufferOps(latch: nat, count: bv32, ws: seq<Op>): seq<Op> {
    [Op(latch, 0xe8), Op(latch, count)] + ws + [Op(latch, 0xd0)]
  }

  /** The bus writes of the same words programmed one at a time. */
  function WordOps(ws: seq<Op>): seq<Op> {
    if ws == [] then [] else
    var op := ws[|ws| - 1];
    WordOps(ws[..|ws| - 1]) + [Op(op.addr, 0x40), op]
  }

  /** What both ways of programming ask for: ready, enabled, and 1 to 16 words of one unlocked sector. */
  ghost predicate CanProgram(s: Flash, latch: nat, ws: seq<Op>) {
    && Quiet(s) && s.mode.Ready? && s.vpen == 1
    && latch < CHIP_SIZE && 1 <= |ws| <= BUFFER_SIZE && Sector(latch) == Sector(latch + |ws| - 1)
    && OneSector(ws, Sector(latch)) && !Locked(s, latch)
  }

  /** A whole buffered program ands each slot into its word of the window. */
  lemma BufferedCommits(s: Flash, latch: nat, count: bv32, ws: seq<Op>)
    requires CanProgram(s, latch, ws) && Low8(count) + 1 == |ws|
    ensures InChip(BufferOps(latch, count, ws))
    ensures Run(s, BufferOps(latch, count, ws)).mem == Committed(s.mem, Word(ws[0].addr), Slots(ws))
    ensures Run(s, BufferOps(latch, count, ws)).mode.Ready?
  {
    CommandBytes();
    hide Low8, Word, Sector;
    var head := [Op(latch, 0xe8), Op(latch, count)];
    Run2(s, head[0], head[1]);
    var s2 := Run(s, head);
    LoadsFillSlots(s2, ws, Sector(latch));
    RunAppend(s, head, ws);
    Run1(Run(s2, ws), Op(latch, 0xd0));
    RunAppend(s, head + ws, [Op(latch, 0xd0)]);
    hide Run;
  }

  /** A load outside its window lands on a slot of another word: here a word of a locked sector loses its bits. */
  lemma AliasedLoadReachesLockedSector(s: Flash, ws: seq<Op>)
    requires Quiet(s) && s.mode.Ready? && s.vpen == 1 && !Locked(s, 0) && Locked(s, 0x4_0000)
    requires ws == [Op(0x3_fffc, ALL_ONES), Op(0, 0)]
    ensures InChip(BufferOps(0, 1, ws)) && Sector(4 * 0x1_0000) == Sector(0x4_0000)
    ensures Run(s, BufferOps(0, 1, ws)).mem[0x1_0000] == 0
  {
    assert Low8(1) == 1 && OneSector(ws, 0);
    BufferedCommits(s, 0, 1, ws);
    assert ws[..1][..0] == [] && ws[..1] == [ws[0]];
    assert Slots(ws) == Slots(ws[..1])[0 := 0];
    AndZero(s.mem[0x1_0000]);
    hide Low8, Run, And;
  }

  lemma AndZero(x: bv32)
    ensures And(x, 0) == 0
  {
  }

  lemma WordCommand(t: Flash, op: Op)
    requires Quiet(t) && t.mode.Ready? && t.vpen == 1 && op.addr < CHIP_SIZE && !Locked(t, op.addr)
    ensures var r := Write(Write(t, op.addr, 0x40), op.addr, op.data);
      && Quiet(r) && r.mode.Ready? && r.vpen == 1 && r.lock == t.lock
      && r.mem == t.mem[Word(op.addr) := And(t.mem[Word(op.addr)], op.data)]
  {
    CommandBytes();
    hide Low8, Word, Sector, And;
  }

  lemma SameLock(s: Flash, t: Flash, a: nat, b: nat)
    requires Sized(s) && Sized(t) && t.lock == s.lock && Sector(a) == Sector(b)
    ensures Locked(s, a) == Locked(t, b)
  {
  }

  /** Word programs and each word's data into memory in turn. */
  lemma {:induction false} WordByWordPrograms(s: Flash, latch: nat, ws: seq<Op>)
    requires Quiet(s) && s.mode.Ready? && s.vpen == 1 && !Locked(s, latch) && OneSector(ws, Sector(latch))
    ensures InChip(ws) && InChip(WordOps(ws))
    ensures Run(s, WordOps(ws)).mem == Programmed(s.mem, ws)
    ensures var r := Run(s, WordOps(ws)); Quiet(r) && r.mode.Ready? && r.vpen == 1 && r.lock == s.lock
  {
    if ws != [] {
      var n := |ws| - 1;
      WordByWordPrograms(s, latch, ws[..n]);
      hide Low8, Word, Sector, And, Quiet, Write;
      var t := Run(s, WordOps(ws[..n]));
      SameLock(s, t, latch, ws[n].addr);
      WordCommand(t, ws[n]);
      Run2(t, Op(ws[n].addr, 0x40), ws[n]);
      RunAppend(s, WordOps(ws[..n]), [Op(ws[n].addr, 0x40), ws[n]]);
      hide Run;
    }
  }

  /** All words lie in the 16-word window that starts at the first one, and no word comes twice. */
  ghost predicate WindowDistinct(addrs: seq<nat>) {
    && (forall i :: 0 <= i < |addrs| ==> Word(addrs[0]) <= Word(addrs[i]) < Word(addrs[0]) + BUFFER_SIZE)
    && (forall i, k :: 0 <= i < k < |addrs| ==> Word(addrs[i]) != Word(addrs[k]))
  }

  ghost function Addrs(ws: seq<Op>): (r: seq<nat>)
    ensures |r| == |ws|
  {
    seq(|ws|, i requires 0 <= i < |ws| => ws[i].addr)
  }

  lemma {:induction false} SlotUntouched(ws: seq<Op>, k: nat)
    requires k < BUFFER_SIZE && forall i :: 0 <= i < |ws| ==> Word(ws[i].addr) % BUFFER_SIZE != k
    ensures Slots(ws)[k] == ALL_ONES
  {
    if ws != [] {
      SlotUntouched(ws[..|ws| - 1], k);
    }
  }

  lemma {:induction false} WordUntouched(mem: seq<bv32>, ws: seq<Op>, j: nat)
    requires InChip(ws) && CHIP_SIZE / 4 <= |mem| && j < |mem|
    requires forall i :: 0 <= i < |ws| ==> Word(ws[i].addr) != j
    ensures Programmed(mem, ws)[j] == mem[j]
  {
    if ws != [] {
      WordUntouched(mem, ws[..|ws| - 1], j);
    }
  }

  /** Inside the window, a slot and its word see the same loads. */
  lemma {:induction false} SlotMatchesWord(mem: seq<bv32>, ws: seq<Op>, w: nat, j: nat)
    requires InChip(ws) && CHIP_SIZE / 4 <= |mem| && w <= j < w + BUFFER_SIZE && j < |mem|
    requires forall i :: 0 <= i < |ws| ==> w <= Word(ws[i].addr) < w + BUFFER_SIZE
    requires forall i, k :: 0 <= i < k < |ws| ==> Word(ws[i].addr) != Word(ws[k].addr)
    ensures And(mem[j], Slots(ws)[j % BUFFER_SIZE]) == Programmed(mem, ws)[j]
  {
    if ws == [] {
      AndOnes(mem[j]);
    } else {
      var n := |ws| - 1;
      SlotMatchesWord(mem, ws[..n], w, j);
      SameSlot(w, j, Word(ws[n].addr));
      if Word(ws[n].addr) == j {
        WordUntouched(mem, ws[..n], j);
      }
    }
  }

  /** Inside one window, a buffered program leaves the memory that programming word by word leaves. */
  lemma BufferedEqualsWordByWord(s: Flash, latch: nat, count: bv32, ws: seq<Op>)
    requires CanProgram(s, latch, ws) && Low8(count) + 1 == |ws| && WindowDistinct(Addrs(ws))
    ensures InChip(BufferOps(latch, count, ws)) && InChip(WordOps(ws))
    ensures Run(s, BufferOps(latch, count, ws)).mem == Run(s, WordOps(ws)).mem
  {
    hide Run, Low8, Word, Sector, And;
    BufferedCommits(s, latch, count, ws);
    WordByWordPrograms(s, latch, ws);
    var w := Word(ws[0].addr);
    assert forall i :: 0 <= i < |ws| ==> Addrs(ws)[i] == ws[i].addr;
    forall j | 0 <= j < |s.mem|
      ensures Committed(s.mem, w, Slots(ws))[j] == Programmed(s.mem, ws)[j]
    {
      if w <= j < w + BUFFER_SIZE {
        SlotMatchesWord(s.mem, ws, w, j);
      } else {
        WordUntouched(s.mem, ws, j);
      }
    }
  }

  lemma {:induction false} ZeroSticks(mem: seq<bv32>, ws: seq<Op>, i: nat)
    requires InChip(ws) && CHIP_SIZE / 4 <= |mem| && i < |ws| && ws[i].data == 0
    ensures Programmed(mem, ws)[Word(ws[i].addr)] == 0
  {
    var n := |ws| - 1;
    if i < n {
      ZeroSticks(mem, ws[..n], i);
      ZeroAnd(ws[n].data);
    } else {
      AndZero(Programmed(mem, ws[..n])[Word(ws[n].addr)]);
    }
  }

  lemma ZeroAnd(x: bv32)
    ensures And(0, x) == 0
  {
  }

  lemma {:induction false} LaterLoadWins(ws: seq<Op>, i: nat, k: nat)
    requires i < k < |ws| && Word(ws[i].addr) == Word(ws[k].addr)
    requires forall m :: 0 <= m < |ws| && m != i ==> ws[m].data == ALL_ONES
    ensures Slots(ws)[Word(ws[i].addr) % BUFFER_SIZE] == ALL_ONES
  {
    var n := |ws| - 1;
    if k < n {
      LaterLoadWins(ws[..n], i, k);
    }
  }

  /** One zero word among ones, programmed both ways, tells a bad window from a good one. */
  lemma BadWindowData(addrs: seq<nat>, mem: seq<bv32>) returns (ws: seq<Op>)
    requires addrs != [] && forall i :: 0 <= i < |addrs| ==> addrs[i] < CHIP_SIZE
    requires !WindowDistinct(addrs) && mem == Fill(CHIP_SIZE / 4)
    ensures Addrs(ws) == addrs && InChip(ws)
    ensures Committed(mem, Word(addrs[0]), Slots(ws)) != Programmed(mem, ws)
  {
    hide Low8, Sector, And;
    var i := BadIndex(addrs);
    ws := seq(|addrs|, m requires 0 <= m < |addrs| => Op(addrs[m], if m == i then 0 else ALL_ONES));
    assert Addrs(ws) == addrs;
    ZeroSticks(mem, ws, i);
    var j := Word(addrs[i]);
    hide Word, Programmed, Slots, WindowDistinct;
    if Word(addrs[0]) <= j < Word(addrs[0]) + BUFFER_SIZE {
      var k :| i < k < |addrs| && Word(addrs[i]) == Word(addrs[k]);
      LaterLoadWins(ws, i, k);
      AndOnes(ALL_ONES);
    }
    assert Committed(mem, Word(addrs[0]), Slots(ws))[j] == ALL_ONES;
  }

  lemma BadIndex(addrs: seq<nat>) returns (i: nat)
    requires addrs != [] && !WindowDistinct(addrs)
    ensures i < |addrs|
    ensures Word(addrs[0]) <= Word(addrs[i]) < Word(addrs[0]) + BUFFER_SIZE ==>
      exists k :: i < k < |addrs| && Word(addrs[i]) == Word(addrs[k])
  {
    hide Word;
    if j :| 0 <= j < |addrs| && !(Word(addrs[0]) <= Word(addrs[j]) < Word(addrs[0]) + BUFFER_SIZE) {
      i := j;
    } else {
      var j, k :| 0 <= j < k < |addrs| && Word(addrs[j]) == Word(addrs[k]);
      i := j;
    }
  }

  ghost predicate SameMemory(s: Flash, latch: nat, count: bv32, ws: seq<Op>) {
    && Sized(s) && InChip(BufferOps(latch, count, ws)) && InChip(WordOps(ws))
    && Run(s, BufferOps(latch, count, ws)).mem == Run(s, WordOps(ws)).mem
  }

  /** Buffered programming is word programming for all data exactly when the addresses fit one window, each once. */
  lemma BufferedExactlyInWindow(addrs: seq<nat>, latch: nat, count: bv32)
    requires Low8(count) + 1 == |addrs| <= BUFFER_SIZE
    requires latch < CHIP_SIZE && Sector(latch) == Sector(latch + |addrs| - 1)
    requires forall i :: 0 <= i < |addrs| ==> addrs[i] < CHIP_SIZE && Sector(addrs[i]) == Sector(latch)
    ensures WindowDistinct(addrs) <==>
      forall s, ws | CanProgram(s, latch, ws) && Addrs(ws) == addrs :: SameMemory(s, latch, count, ws)
  {
    hide Run, Low8, Word, Sector, And, WindowDistinct;
    if WindowDistinct(addrs) {
      forall s, ws | CanProgram(s, latch, ws) && Addrs(ws) == addrs
        ensures SameMemory(s, latch, count, ws)
      {
        BufferedEqualsWordByWord(s, latch, count, ws);
      }
    } else {
      var s := ResetState(Fill(CHIP_SIZE / 4));
      var ws := BadWindowData(addrs, s.mem);
      assert forall i :: 0 <= i < |ws| ==> Addrs(ws)[i] == ws[i].addr;
      assert CanProgram(s, latch, ws);
      BufferedCommits(s, latch, count, ws);
      WordByWordPrograms(s, latch, ws);
      assert !SameMemory(s, latch, count, ws);
    }
  }

  /** A load of `addrs` lands on the slot that the commit writes to word `j`. */
  ghost predicate Reaches(addrs: seq<nat>, j: nat) {
    && addrs != [] && Word(addrs[0]) <= j < Word(addrs[0]) + BUFFER_SIZE
    && exists i :: 0 <= i < |addrs| && Word(addrs[i]) % BUFFER_SIZE == j % BUFFER_SIZE
  }

  lemma {:induction false} ZeroSlot(ws: seq<Op>, k: nat, i: nat)
    requires i < |ws| && k < BUFFER_SIZE && Word(ws[i].addr) % BUFFER_SIZE == k
    requires forall m :: 0 <= m < |ws| ==> ws[m].data == 0
    ensures Slots(ws)[k] == 0
  {
    var n := |ws| - 1;
    if i < n {
      ZeroSlot(ws[..n], k, i);
    }
  }

  /** A word of another sector, locked or not, survives a buffered program for all data exactly when no load lands on
      its slot inside the window; the lock of that sector is never asked. */
  lemma OtherSectorKeptExactly(s: Flash, addrs: seq<nat>, latch: nat, count: bv32, j: nat)
    requires Quiet(s) && s.mode.Ready? && s.vpen == 1 && latch < CHIP_SIZE && !Locked(s, latch)
    requires 1 <= |addrs| && Low8(count) + 1 == |addrs| <= BUFFER_SIZE && Sector(latch) == Sector(latch + |addrs| - 1)
    requires forall i :: 0 <= i < |addrs| ==> addrs[i] < CHIP_SIZE && Sector(addrs[i]) == Sector(latch)
    requires j < |s.mem| && Sector(4 * j) != Sector(latch) && s.mem[j] != 0
    ensures !Reaches(addrs, j) <==>
      forall ws: seq<Op> | CanProgram(s, latch, ws) && Addrs(ws) == addrs :: KeepsWord(s, latch, count, ws, j)
  {
    hide Run, Low8, Word, Sector, And, Locked;
    if !Reaches(addrs, j) {
      forall ws: seq<Op> | CanProgram(s, latch, ws) && Addrs(ws) == addrs
        ensures KeepsWord(s, latch, count, ws, j)
      {
        BufferedCommits(s, latch, count, ws);
        assert forall i :: 0 <= i < |ws| ==> Addrs(ws)[i] == ws[i].addr;
        if Word(ws[0].addr) <= j < Word(ws[0].addr) + BUFFER_SIZE {
          SlotUntouched(ws, j % BUFFER_SIZE);
          AndOnes(s.mem[j]);
        }
      }
    } else {
      var i :| 0 <= i < |addrs| && Word(addrs[i]) % BUFFER_SIZE == j % BUFFER_SIZE;
      var ws := seq(|addrs|, m requires 0 <= m < |addrs| => Op(addrs[m], 0));
      assert Addrs(ws) == addrs;
      ZeroSlot(ws, j % BUFFER_SIZE, i);
      BufferedCommits(s, latch, count, ws);
      AndZero(s.mem[j]);
      assert !KeepsWord(s, latch, count, ws, j);
    }
  }

  ghost predicate KeepsWord(s: Flash, latch: nat, count: bv32, ws: seq<Op>, j: nat) {
    && Sized(s) && InChip(BufferOps(latch, count, ws)) && j < |s.mem|
    && var m := Run(s, BufferOps(latch, count, ws)).mem; j < |m| && m[j] == s.mem[j]
  }
}
