/** An SST39LVF160 or Am29 chip over its memory bank: programs, erases and array reads. */
module JedecChip {
  import opened ArmMemory
  import opened BitFields
  import opened JedecFlash

  /** Chip and erase-unit sizes in bytes; `block` is the SST39's 64K block. */
  datatype Sizes = Sizes(chip: nat, sector: nat, block: nat)

  const SST39_SIZES := Sizes(0x20_0000, 0x1000, 0x1_0000)

  ghost predicate Sane(z: Sizes) {
    z.chip % 4 == 0 && z.sector % 4 == 0 && z.block % 4 == 0 && z.sector <= z.chip && z.block <= z.chip && 0 < z.chip
  }

  /** The addresses an erase command asks for, with 32-bit wrap-around; equal ends ask for nothing. */
  function EraseRange(p: Part, z: Sizes, base: nat, addr: nat, data: bv32): (nat, nat) {
    if data == 0x10 then (base, (base + z.chip) % 0x1_0000_0000)
    else if data == 0x30 then (addr, (addr + z.sector) % 0x1_0000_0000)
    else if data == 0x50 && p == Sst39 then (addr, (addr + z.block) % 0x1_0000_0000)
    else (0, 0)
  }

  lemma Wrapped(a: nat, n: nat, top: nat)
    requires a < (a + n) % 0x1_0000_0000 <= top < 0x1_0000_0000 && n % 4 == 0 && n <= top
    ensures ((a + n) % 0x1_0000_0000 - a) % 4 == 0 && (a + n) % 0x1_0000_0000 == a + n
  {
    assert a + n < 0x2_0000_0000;
  }

  lemma RangeFits(p: Part, z: Sizes, base: nat, addr: nat, data: bv32)
    requires Sane(z) && base <= addr && base + z.chip < 0x1_0000_0000
    ensures var (start, end) := EraseRange(p, z, base, addr, data);
      start < end <= base + z.chip ==> base <= start && (end - start) % 4 == 0
  {
    var (start, end) := EraseRange(p, z, base, addr, data);
    if start < end <= base + z.chip {
      if data == 0x10 {
        Wrapped(base, z.chip, base + z.chip);
      } else if data == 0x30 {
        Wrapped(addr, z.sector, base + z.chip);
      } else {
        Wrapped(addr, z.block, base + z.chip);
      }
    }
  }

  /** Bytes `lo` to `hi` set to ones. */
  function Ones(f: seq<bv32>, lo: nat, hi: nat): (g: seq<bv32>)
    ensures |g| == |f|
  {
    seq(|f|, i requires 0 <= i < |f| => if lo <= i < hi then 0xff else f[i])
  }

  /** The array after an erase of [start, end): word writes, so it begins at the word that holds `start`. */
  function Erased(f: seq<bv32>, base: nat, start: nat, end: nat): seq<bv32>
    requires base <= start <= end
  {
    Ones(f, (start - base) / 4 * 4, (start - base) / 4 * 4 + (end - start))
  }

  function Programmed(p: Part, base: nat, big: bool, f: seq<bv32>, addr: nat, data: bv32): (g: seq<bv32>)
    requires base <= addr && addr - base < |f| && |f| % 4 == 0
    ensures |g| == |f|
  {
    if p == Am29Byte then f[addr - base := Low(data)] else HalfPut(f, big, HalfOf(addr - base, |f| / 4), data)
  }

  function EraseAccepted(p: Part, z: Sizes, base: nat, f: seq<bv32>, addr: nat, data: bv32): (g: seq<bv32>)
    requires base <= addr
    ensures |g| == |f|
  {
    var (start, end) := EraseRange(p, z, base, addr, data);
    if start < end <= base + z.chip then Erased(f, base, start, end) else f
  }

  /** The array after a write. */
  function ArrayAfter(p: Part, z: Sizes, base: nat, big: bool, f: seq<bv32>, r: History, addr: nat, data: bv32): (g: seq<bv32>)
    requires |r.bus| == 6 && base <= addr && addr - base < |f| && |f| % 4 == 0
    ensures |g| == |f|
  {
    match Act(p, r, data)
    case Program => Programmed(p, base, big, f, addr, data)
    case Erase => EraseAccepted(p, z, base, f, addr, data)
    case _ => f
  }

  /** A write changes the array only when the unlock sequence was just written. */
  lemma ChangesOnlyUnlocked(p: Part, h: seq<Event>, z: Sizes, base: nat, big: bool, f: seq<bv32>, addr: nat, data: bv32)
    requires base <= addr && addr - base < |f| && |f| % 4 == 0
    requires ArrayAfter(p, z, base, big, f, Run(p, h), addr, data) != f
    ensures EndsWith(p, Stripped(p, h), ProgramSequence(p)) || EndsWith(p, Stripped(p, h), EraseSequence(p))
  {
    UnlockedExactly(p, h);
  }

  function Reads(k: nat): (r: seq<Event>)
    ensures |r| == k
  {
    seq(k, _ => Read)
  }

  lemma {:induction false} ReadsKeep(p: Part, h: seq<Event>, k: nat)
    ensures Run(p, h + Reads(k)) == if k == 0 then Run(p, h) else AfterRead(Run(p, h))
    decreases k
  {
    if k == 0 {
      assert h + Reads(0) == h;
    } else {
      ReadsKeep(p, h, k - 1);
      assert h + Reads(k) == h + Reads(k - 1) + [Read];
      RunOn(p, h + Reads(k - 1), Read);
    }
  }

  /** After the program unlock and any reads the data is programmed, except that an Am29 read from in between takes
      data 0xb0 and 0x30 for erase suspend and resume and drops them. */
  lemma ProgramsExactly(p: Part, b: seq<Event>, k: nat, data: bv32)
    requires Boundary(p, b)
    ensures Act(p, Run(p, b + ProgramSequence(p) + Reads(k)), data) == Program
      <==> p == Sst39 || k == 0 || (data != 0xb0 && data != 0x30)
  {
    SequencesUnlock(p, b);
    RunWellFormed(p, b + ProgramSequence(p));
    ProgramStays(p, b + ProgramSequence(p));
    ReadsKeep(p, b + ProgramSequence(p), k);
    hide Run;
  }

  lemma ProgramStays(p: Part, h: seq<Event>)
    requires ProgramUnlocked(p, Run(p, h)) && h != [] && h[|h| - 1] == Write(Entry(First(p), 0xa0))
    ensures Run(p, h).nBus == 3
  {
    hide Ends;
    RunWellFormed(p, h[..|h| - 1]);
  }

  /** After the erase unlock and any reads an erase is carried out, with the same exception: an Am29 read from in
      between takes the sector-erase code 0x30 itself for erase resume and drops it. */
  lemma ErasesExactly(p: Part, b: seq<Event>, k: nat, data: bv32)
    requires Boundary(p, b)
    ensures Act(p, Run(p, b + EraseSequence(p) + Reads(k)), data) == Erase
      <==> p == Sst39 || k == 0 || (data != 0xb0 && data != 0x30)
    ensures p != Sst39 && k > 0 ==> Act(p, Run(p, b + EraseSequence(p) + Reads(k)), 0x30) == Drop
  {
    SequencesUnlock(p, b);
    RunWellFormed(p, b + EraseSequence(p));
    EraseStays(p, b + EraseSequence(p));
    ReadsKeep(p, b + EraseSequence(p), k);
    hide Run;
  }

  lemma EraseStays(p: Part, h: seq<Event>)
    requires EraseUnlocked(p, Run(p, h)) && h != [] && h[|h| - 1] == Write(Entry(Second(p), 0x55))
    ensures Run(p, h).nBus == 5
  {
    hide Ends;
    RunWellFormed(p, h[..|h| - 1]);
  }

  /** A program overwrites its byte or halfword, whatever was there, and nothing else. */
  lemma ProgramOverwrites(p: Part, z: Sizes, base: nat, big: bool, f: seq<bv32>, r: History, addr: nat, data: bv32)
    requires |r.bus| == 6 && base <= addr && addr - base < |f| && |f| % 4 == 0 && Act(p, r, data) == Program
    ensures var g := ArrayAfter(p, z, base, big, f, r, addr, data);
      var a := (addr - base) / 2 * 2;
      && |g| == |f|
      && (p == Am29Byte ==> g[addr - base] == data & 0xff && forall i :: 0 <= i < |f| && i != addr - base ==> g[i] == f[i])
      && (p != Am29Byte ==>
            && a + 1 < |f|
            && g[a] == (if big then HighByte(data) else data & 0xff)
            && g[a + 1] == (if big then data & 0xff else HighByte(data))
            && forall i :: 0 <= i < |f| && i != a && i != a + 1 ==> g[i] == f[i])
  {
    EvenAddress(addr - base, |f| / 4);
    HalfPutAt(f, big, HalfOf(addr - base, |f| / 4), data);
    hide HalfOf, HalfPut, Act, EraseAccepted;
  }

  lemma HalfPutAt(f: seq<bv32>, big: bool, a: nat, data: bv32)
    requires a + 1 < |f|
    ensures var g := HalfPut(f, big, a, data);
      && |g| == |f|
      && g[a] == (if big then HighByte(data) else data & 0xff)
      && g[a + 1] == (if big then data & 0xff else HighByte(data))
      && forall i :: 0 <= i < |f| && i != a && i != a + 1 ==> g[i] == f[i]
  {
  }

  /** The second byte of a value. */
  function HighByte(data: bv32): bv32 {
    (data >> (8 as bv6)) & 0xff
  }

  lemma EvenAddress(i: nat, words: nat)
    requires i < 4 * words
    ensures HalfOf(i, words) == i / 2 * 2
  {
    var q, r := i / 4, i % 4;
    assert i == 4 * q + r;
    var a := HalfOf(i, words);
    assert a == 4 * q + a % 4;
    assert i / 2 == 2 * q + r / 2;
  }

  /** The same array on the real chips, which clear bits and never set them. */
  function Cleared(f: seq<bv32>, g: seq<bv32>): (r: seq<bv32>)
    requires |f| == |g|
    ensures |r| == |f|
  {
    seq(|f|, i requires 0 <= i < |f| => BitAnd(f[i], g[i]))
  }

  function BitAnd(x: bv32, y: bv32): bv32 {
    x & y
  }

  /** The bytes that a program at `addr` is for are erased. */
  predicate TargetErased(p: Part, base: nat, f: seq<bv32>, addr: nat)
    requires base <= addr && addr - base < |f| && |f| % 4 == 0
  {
    if p == Am29Byte then f[addr - base] == 0xff
    else f[HalfOf(addr - base, |f| / 4)] == 0xff && f[HalfOf(addr - base, |f| / 4) + 1] == 0xff
  }

  /** A program leaves what the real chips would leave, for all data, exactly when it is aimed at erased bytes. */
  lemma ProgramClearsExactly(p: Part, base: nat, big: bool, f: seq<bv32>, addr: nat)
    requires base <= addr && addr - base < |f| && |f| % 4 == 0 && Octets(f)
    ensures TargetErased(p, base, f, addr) <==>
      forall data: bv32 :: Programmed(p, base, big, f, addr, data) == Cleared(f, Programmed(p, base, big, f, addr, data))
  {
    hide Low, GetField;
    if TargetErased(p, base, f, addr) {
      forall data: bv32
        ensures Programmed(p, base, big, f, addr, data) == Cleared(f, Programmed(p, base, big, f, addr, data))
      {
        ErasedTakesAll(p, base, big, f, addr, data);
      }
    } else {
      OnesRaise(p, base, big, f, addr);
    }
  }

  lemma SameBits(x: bv32)
    ensures BitAnd(x, x) == x
  {
  }

  lemma SmallBytes(x: bv32)
    ensures BitAnd(0xff, Low(x)) == Low(x) && BitAnd(0xff, GetField(x, 8, 0xff)) == GetField(x, 8, 0xff)
  {
  }

  lemma ErasedTakesAll(p: Part, base: nat, big: bool, f: seq<bv32>, addr: nat, data: bv32)
    requires base <= addr && addr - base < |f| && |f| % 4 == 0 && TargetErased(p, base, f, addr)
    ensures Programmed(p, base, big, f, addr, data) == Cleared(f, Programmed(p, base, big, f, addr, data))
  {
    hide Low, GetField, HalfOf, BitAnd;
    SmallBytes(data);
    var g := Programmed(p, base, big, f, addr, data);
    forall i | 0 <= i < |f|
      ensures g[i] == BitAnd(f[i], g[i])
    {
      SameBits(f[i]);
    }
  }

  /** Programming ones sets the target's bits, whatever they were. */
  lemma OnesRaise(p: Part, base: nat, big: bool, f: seq<bv32>, addr: nat)
    requires base <= addr && addr - base < |f| && |f| % 4 == 0 && Octets(f) && !TargetErased(p, base, f, addr)
    ensures Programmed(p, base, big, f, addr, 0xffff) != Cleared(f, Programmed(p, base, big, f, addr, 0xffff))
  {
    hide HalfOf;
    var i := if p == Am29Byte then addr - base else HalfOf(addr - base, |f| / 4);
    var g := Programmed(p, base, big, f, addr, 0xffff);
    FullBytes();
    if f[i] != 0xff {
      BelowOnes(f[i]);
      assert Cleared(f, g)[i] == BitAnd(f[i], 0xff);
    } else {
      BelowOnes(f[i + 1]);
      assert Cleared(f, g)[i + 1] == BitAnd(f[i + 1], 0xff);
    }
  }

  lemma FullBytes()
    ensures Low(0xffff) == 0xff && GetField(0xffff, 8, 0xff) == 0xff
  {
  }

  lemma BelowOnes(x: bv32)
    requires x < 0x100 && x != 0xff
    ensures BitAnd(x, 0xff) != 0xff
  {
  }

  /** A programmed bit that rises without an erase: 1 over a cleared byte. */
  lemma ProgramRaisesBit()
    ensures Programmed(Am29Byte, 0, false, [0, 0, 0, 0], 2, 1) == [0, 0, 1, 0]
  {
  }

  /** The bytes an erase code erases, from the word that holds the addressed byte on: the whole chip, a sector, on the
      SST39 a block; any other code erases nothing, and neither does one that would reach past the chip. */
  lemma EraseCodes(p: Part, b: seq<Event>, z: Sizes, base: nat, big: bool, f: seq<bv32>, addr: nat, data: bv32, i: nat)
    requires Boundary(p, b) && Sane(z) && base <= addr && addr - base < |f| && |f| % 4 == 0
    requires z.chip <= |f| && base + z.chip < 0x1_0000_0000 && i < |f| && addr < 0x1_0000_0000
    ensures var g := ArrayAfter(p, z, base, big, f, Run(p, b + EraseSequence(p)), addr, data);
      var n := if data == 0x30 then z.sector else if data == 0x50 && p == Sst39 then z.block else 0;
      var lo := (addr - base) / 4 * 4;
      && |g| == |f|
      && g[i] == if (data == 0x10 && i < z.chip) || (data != 0x10 && addr + n <= base + z.chip && lo <= i < lo + n)
                 then 0xff else f[i]
  {
    ErasesExactly(p, b, 0, data);
    assert b + EraseSequence(p) + Reads(0) == b + EraseSequence(p);
    ErasedByCode(p, z, base, f, addr, data, i);
    hide Run, Boundary, Act, EraseAccepted, Sane;
  }

  lemma ErasedByCode(p: Part, z: Sizes, base: nat, f: seq<bv32>, addr: nat, data: bv32, i: nat)
    requires Sane(z) && base <= addr && z.chip <= |f| && base + z.chip < 0x1_0000_0000 && i < |f| && addr < 0x1_0000_0000
    ensures var n := if data == 0x30 then z.sector else if data == 0x50 && p == Sst39 then z.block else 0;
      var lo := (addr - base) / 4 * 4;
      EraseAccepted(p, z, base, f, addr, data)[i]
        == if (data == 0x10 && i < z.chip) || (data != 0x10 && addr + n <= base + z.chip && lo <= i < lo + n)
           then 0xff else f[i]
  {
    if data == 0x10 {
      EndOf(base, z.chip, base + z.chip);
      ErasedAt(f, base, base, z.chip, i);
    } else {
      var n := if data == 0x30 then z.sector else if data == 0x50 && p == Sst39 then z.block else 0;
      EndOf(addr, n, base + z.chip);
      ErasedAt(f, base, addr, n, i);
    }
    hide Erased;
  }

  lemma ErasedAt(f: seq<bv32>, base: nat, start: nat, n: nat, i: nat)
    requires base <= start && i < |f|
    ensures Erased(f, base, start, start + n)[i]
         == if (start - base) / 4 * 4 <= i < (start - base) / 4 * 4 + n then 0xff else f[i]
  {
  }

  lemma EndOf(start: nat, n: nat, top: nat)
    requires start < 0x1_0000_0000 && n <= top < 0x1_0000_0000
    ensures var end := (start + n) % 0x1_0000_0000;
      (start < end <= top <==> start + n <= top && n > 0) && (start + n <= top ==> end == start + n)
  {
  }

  /** The writes the three parts' commands are made of. */
  lemma SequencesAre()
    ensures ProgramSequence(Sst39) == [Write(Entry(0x5555, 0xaa)), Write(Entry(0x2aaa, 0x55)), Write(Entry(0x5555, 0xa0))]
    ensures ProgramSequence(Am29Byte) == [Write(Entry(0xaaa, 0xaa)), Write(Entry(0x555, 0x55)), Write(Entry(0xaaa, 0xa0))]
    ensures ProgramSequence(Am29Word) == [Write(Entry(0x555, 0xaa)), Write(Entry(0x2aa, 0x55)), Write(Entry(0x555, 0xa0))]
    ensures EraseSequence(Sst39) == [Write(Entry(0x5555, 0xaa)), Write(Entry(0x2aaa, 0x55)), Write(Entry(0x5555, 0x80)),
                                     Write(Entry(0x5555, 0xaa)), Write(Entry(0x2aaa, 0x55))]
    ensures EraseSequence(Am29Byte) == [Write(Entry(0xaaa, 0xaa)), Write(Entry(0x555, 0x55)), Write(Entry(0xaaa, 0x80)),
                                        Write(Entry(0xaaa, 0xaa)), Write(Entry(0x555, 0x55))]
    ensures EraseSequence(Am29Word) == [Write(Entry(0x555, 0xaa)), Write(Entry(0x2aa, 0x55)), Write(Entry(0x555, 0x80)),
                                        Write(Entry(0x555, 0xaa)), Write(Entry(0x2aa, 0x55))]
    ensures IdEntry(Sst39) == [Entry(0x5555, 0xaa), Entry(0x2aaa, 0x55), Entry(0x5555, 0x90)]
    ensures IdEntry(Am29Byte) == [Entry(0xaaa, 0xaa), Entry(0x555, 0x55), Entry(0xaaa, 0x90)]
    ensures IdEntry(Am29Word) == [Entry(0x555, 0xaa), Entry(0x2aa, 0x55), Entry(0x555, 0x90)]
    ensures QueryEntry(Sst39) == [Entry(0x5555, 0xaa), Entry(0x2aaa, 0x55), Entry(0x5555, 0x98)]
    ensures QueryEntry(Am29Byte) == [Entry(0xaa, 0x98)] && QueryEntry(Am29Word) == [Entry(0x55, 0x98)]
  {
  }

  /** An erase covers exactly the bytes asked for when it starts at a word, and otherwise is off by the misalignment. */
  lemma EraseExact(n: nat, base: nat, start: nat, end: nat)
    requires base <= start < end && end - base <= n && (end - start) % 4 == 0
    ensures (forall f: seq<bv32> :: |f| == n ==> Erased(f, base, start, end) == Ones(f, start - base, end - base))
      <==> (start - base) % 4 == 0
  {
    var lo := start - base;
    if lo % 4 == 0 {
      assert lo / 4 * 4 == lo;
    } else {
      var f: seq<bv32> := seq(n, _ => 0);
      assert lo / 4 * 4 < lo;
      assert Erased(f, base, start, end)[end - base - 1] == 0;
      assert Ones(f, lo, end - base)[end - base - 1] == 0xff;
    }
  }

  /** An accepted erase stays inside the chip. */
  lemma EraseInside(p: Part, z: Sizes, base: nat, big: bool, f: seq<bv32>, r: History, addr: nat, data: bv32, i: nat)
    requires |r.bus| == 6 && base <= addr && addr - base < |f| && |f| % 4 == 0 && Act(p, r, data) == Erase
    requires Sane(z) && i < |f|
    ensures i >= z.chip ==> ArrayAfter(p, z, base, big, f, r, addr, data)[i] == f[i]
    ensures ArrayAfter(p, z, base, big, f, r, addr, data)[i] in {f[i], 0xff}
  {
  }

  lemma OnesBytes()
    ensures forall o: bv32 :: o in {0, 8, 16, 24} ==> GetField(0xffff_ffff, o, 0xff) == 0xff
  {
  }

  lemma OnesWord(f: seq<bv32>, big: bool, lo: nat, a: nat)
    requires lo <= a && a + 3 < |f|
    ensures WordPut(Ones(f, lo, a), big, a, 0xffff_ffff) == Ones(f, lo, a + 4)
  {
    hide GetField;
    OnesBytes();
  }

  /** The erase loop of both chips. */
  method EraseWords(bank: Bank, start: nat, end: nat)
    requires bank.Valid() && bank.base <= start <= end && end - bank.base <= 4 * bank.words.Length && (end - start) % 4 == 0
    modifies bank.words
    ensures bank.Bytes() == Erased(old(bank.Bytes()), bank.base, start, end)
  {
    hide GetField, WordPut, WordOf, Flat, Bank.Bytes, Ones;
    ghost var f := bank.Bytes();
    ghost var lo := (start - bank.base) / 4 * 4;
    NoOnes(f, lo);
    var addr := start;
    ghost var done := 0;
    while addr < end
      invariant start <= addr <= end && addr == start + 4 * done
      invariant bank.Bytes() == Ones(f, lo, lo + 4 * done)
    {
      EraseStep(f, bank.big, start - bank.base, 4 * done, bank.words.Length);
      bank.WriteWord(addr, 0xffff_ffff);
      addr, done := addr + 4, done + 1;
    }
  }

  lemma NoOnes(f: seq<bv32>, lo: nat)
    ensures Ones(f, lo, lo) == f
  {
  }

  lemma EraseStep(f: seq<bv32>, big: bool, s: nat, n: nat, words: nat)
    requires |f| == 4 * words && s + n < 4 * words && n % 4 == 0
    ensures var lo := s / 4 * 4;
      WordPut(Ones(f, lo, lo + n), big, WordOf(s + n, words), 0xffff_ffff) == Ones(f, lo, lo + n + 4)
  {
    hide WordPut, Ones;
    WordAtStep(s, s + n, words);
    OnesWord(f, big, s / 4 * 4, WordOf(s + n, words));
  }

  lemma WordAtStep(s: nat, a: nat, words: nat)
    requires s <= a < 4 * words && (a - s) % 4 == 0
    ensures WordOf(a, words) == s / 4 * 4 + (a - s)
  {
  }

  // ---------- Identification ----------

  /** The codes and the query table a part answers with; an Am29 without a table has an empty one. */
  datatype Ids = Ids(manufacturer: bv32, device: bv32, table: seq<bv32>)

  /** `WORD` of the query table, 0 past its end. */
  function TableWord(ids: Ids, offset: nat): bv32 {
    if offset < |ids.table| then ids.table[offset] else 0
  }

  /** The ID code at an offset; the Am29 looks at its low byte only. */
  function IdCode(p: Part, ids: Ids, offset: nat): bv32 {
    var o := if p == Sst39 then offset else offset % 0x100;
    if o == 0 then ids.manufacturer else if o == (if p == Am29Byte then 2 else 1) then ids.device else 0
  }

  /** The Am29's one-cycle query command. */
  predicate Query(p: Part, r: History)
    requires |r.bus| == 6
  {
    r.cnt == 1 && Check(r, 0, if p == Am29Byte then 0xaa else 0x55, 0x98)
  }

  /** What a read answers: array data while nothing is recorded, ID codes or the query table after their commands, and
      otherwise whatever the caller's variable held. */
  function Answer(p: Part, ids: Ids, r: History, offset: nat, stored: bv32, was: bv32): bv32
    requires |r.bus| == 6
  {
    if r.cnt == 0 then stored
    else if p == Sst39 then
      if Command(p, r, 0x90) then IdCode(p, ids, offset)
      else if Command(p, r, 0x98) then TableWord(ids, offset)
      else was
    else if ids.table != [] && Query(p, r) then TableWord(ids, if p == Am29Byte then offset / 2 else offset)
    else if Command(p, r, 0x90) then IdCode(p, ids, offset)
    else was
  }

  /** Entry `x` of the query table, as the guest reads it, as a number. */
  function Queried(ids: Ids, x: nat): nat {
    TableWord(ids, x) as nat
  }

  /** The SST39's query table; its two types differ in one voltage. */
  function Sst39Query(lf160: bool, x: nat): bv32 {
    match x
    case 0x10 => 0x51
    case 0x11 => 0x52
    case 0x12 => 0x59
    case 0x13 => 0x01
    case 0x14 => 0x07
    case 0x1b => if lf160 then 0x30 else 0x27
    case 0x1c => 0x36
    case 0x1f => 0x04
    case 0x21 => 0x04
    case 0x22 => 0x06
    case 0x23 => 0x01
    case 0x25 => 0x01
    case 0x26 => 0x01
    case 0x27 => 0x15
    case 0x28 => 0x01
    case 0x2c => 0x02
    case 0x2d => 0xff
    case 0x2e => 0x01
    case 0x2f => 0x10
    case 0x31 => 0x1f
    case 0x34 => 0x01
    case _ => 0
  }

  function Sst39Ids(lf160: bool): Ids {
    Ids(0xbf, 0x2782, seq(0x35, x requires 0 <= x < 0x35 => Sst39Query(lf160, x)))
  }

  /** The SST39's query table describes the chip that its erase commands act on: its size, its sectors and its blocks. */
  lemma Sst39TableDescribesChip(ids: Ids, lf160: bool)
    requires ids == Sst39Ids(lf160)
    ensures SST39_SIZES.chip == Pow2(Queried(ids, 0x27))
    ensures SST39_SIZES.sector == 0x100 * (Queried(ids, 0x2f) + 0x100 * Queried(ids, 0x30))
    ensures SST39_SIZES.chip == (Queried(ids, 0x2d) + 0x100 * Queried(ids, 0x2e) + 1) * SST39_SIZES.sector
    ensures SST39_SIZES.block == 0x100 * (Queried(ids, 0x33) + 0x100 * Queried(ids, 0x34))
    ensures SST39_SIZES.chip == (Queried(ids, 0x31) + 0x100 * Queried(ids, 0x32) + 1) * SST39_SIZES.block
    ensures Sane(SST39_SIZES)
  {
    Sst39Sectors(ids, lf160);
    Sst39Blocks(ids, lf160);
    TwoToThe21();
    hide Queried, Pow2, Sst39Ids;
  }

  lemma TwoToThe21()
    ensures Pow2(21) == 0x20_0000
  {
    Pow2Values();
    Pow2Add(16, 5);
    assert Pow2(5) == 32;
  }

  lemma Sst39Sectors(ids: Ids, lf160: bool)
    requires ids == Sst39Ids(lf160)
    ensures Queried(ids, 0x27) == 21
    ensures Queried(ids, 0x2d) == 0xff && Queried(ids, 0x2e) == 1 && Queried(ids, 0x2f) == 0x10 && Queried(ids, 0x30) == 0
  {
    Sst39Word(ids, lf160, 0x27);
    Sst39Word(ids, lf160, 0x2d);
    Sst39Word(ids, lf160, 0x2e);
    Sst39Word(ids, lf160, 0x2f);
    Sst39Word(ids, lf160, 0x30);
    hide TableWord, Sst39Ids;
  }

  /** The SST39 gives its manufacturer and device, and its table begins with "QRY". */
  lemma Sst39Identifies(ids: Ids, lf160: bool)
    requires ids == Sst39Ids(lf160)
    ensures ids.manufacturer == 0xbf && ids.device == 0x2782
    ensures Queried(ids, 0x10) == 'Q' as nat && Queried(ids, 0x11) == 'R' as nat && Queried(ids, 0x12) == 'Y' as nat
  {
    Sst39Word(ids, lf160, 0x10);
    Sst39Word(ids, lf160, 0x11);
    Sst39Word(ids, lf160, 0x12);
    hide TableWord;
  }

  lemma Sst39Blocks(ids: Ids, lf160: bool)
    requires ids == Sst39Ids(lf160)
    ensures Queried(ids, 0x31) == 0x1f && Queried(ids, 0x32) == 0 && Queried(ids, 0x33) == 0 && Queried(ids, 0x34) == 1
  {
    Sst39Word(ids, lf160, 0x31);
    Sst39Word(ids, lf160, 0x32);
    Sst39Word(ids, lf160, 0x33);
    Sst39Word(ids, lf160, 0x34);
    hide TableWord, Sst39Ids;
  }

  lemma Sst39Word(ids: Ids, lf160: bool, x: nat)
    requires ids == Sst39Ids(lf160) && x < 0x35
    ensures TableWord(ids, x) == Sst39Query(lf160, x)
  {
    hide Sst39Query;
  }

  /** The commands after which reads answer with the ID codes, and with the query table. */
  function IdEntry(p: Part): seq<Entry> {
    ThreeCycle(p, 0x90)
  }

  function QueryEntry(p: Part): seq<Entry> {
    if p == Sst39 then ThreeCycle(p, 0x98) else [Entry(if p == Am29Byte then 0xaa else 0x55, 0x98)]
  }

  /** The two ways out: one write of 0xf0 at any offset, or the three-cycle command. */
  predicate IsExit(p: Part, w: seq<Entry>) {
    (|w| == 1 && w[0].data == 0xf0) || w == ThreeCycle(p, 0xf0)
  }

  /** A history with the entries `w` complete, and read since or not. */
  predicate Complete(r: History, w: seq<Entry>, read: bool)
    requires |r.bus| == 6
  {
    |w| <= 3 && r.cnt == |w| && r.nBus == (if read then 0 else |w|) && forall i :: 0 <= i < |w| ==> r.bus[i] == w[i]
  }

  lemma Entered(p: Part, b: seq<Event>, w: seq<Entry>, k: nat)
    requires Boundary(p, b) && (w == IdEntry(p) || w == QueryEntry(p))
    ensures Complete(Run(p, b + Writes(w) + Reads(k)), w, k > 0)
  {
    RunWellFormed(p, b);
    ReadsKeep(p, b + Writes(w), k);
    RunWrites(p, b, w);
    var r := Run(p, b);
    hide Run, Stripped;
    if |w| == 3 {
      ThreeCycles(p, r, w[2].data);
      ThreeWrites(p, r, w);
      hide AfterWrite, AfterWrites;
    } else {
      UnlockFirst(p, r, w[0]);
      assert w[1..] == [];
      assert AfterWrites(p, r, w) == AfterWrites(p, AfterWrite(p, r, w[0]), []);
    }
  }

  lemma UnlockFirst(p: Part, r: History, e: Entry)
    requires WellFormed(r) && !ProgramUnlocked(p, r) && !EraseUnlocked(p, r) && r.nBus == 0 && p != Sst39 && e.data == 0x98
    ensures AfterWrite(p, r, e) == Recorded(r, e)
  {
    hide ProgramUnlocked, EraseUnlocked;
  }

  lemma ThreeWrites(p: Part, r: History, w: seq<Entry>)
    requires |r.bus| == 6 && |w| == 3
    ensures AfterWrites(p, r, w) == AfterWrite(p, AfterWrite(p, AfterWrite(p, r, w[0]), w[1]), w[2])
  {
    hide AfterWrite;
    var r1 := AfterWrite(p, r, w[0]);
    var r2 := AfterWrite(p, r1, w[1]);
    assert w[1..][0] == w[1] && w[1..][1..] == [w[2]] && [w[2]][1..] == [];
    assert AfterWrites(p, r, w) == AfterWrites(p, r1, w[1..]);
    assert AfterWrites(p, r1, w[1..]) == AfterWrites(p, r2, [w[2]]);
    assert AfterWrites(p, r2, [w[2]]) == AfterWrites(p, AfterWrite(p, r2, w[2]), []);
  }

  /** A way out clears the history, except that an SST39 records it behind the command if no read came before. */
  lemma Exited(p: Part, r: History, w: seq<Entry>, read: bool, exit: seq<Entry>)
    requires |r.bus| == 6 && (w == IdEntry(p) || w == QueryEntry(p)) && Complete(r, w, read) && IsExit(p, exit)
    ensures if p != Sst39 || read then AfterWrites(p, r, exit) == Empty() else AfterWrites(p, r, exit).cnt == 3 + |exit|
  {
    if |exit| == 1 {
      assert exit[1..] == [];
      assert AfterWrites(p, r, exit) == AfterWrites(p, AfterWrite(p, r, exit[0]), []);
      OneExit(p, r, w, read, exit[0]);
    } else {
      ThreeWrites(p, r, exit);
      ThreeExit(p, r, w, read);
    }
  }

  lemma OneExit(p: Part, r: History, w: seq<Entry>, read: bool, e: Entry)
    requires |r.bus| == 6 && (w == IdEntry(p) || w == QueryEntry(p)) && Complete(r, w, read) && e.data == 0xf0
    ensures if p != Sst39 || read then AfterWrite(p, r, e) == Empty() else AfterWrite(p, r, e).cnt == 4
  {
  }

  lemma ThreeExit(p: Part, r: History, w: seq<Entry>, read: bool)
    requires |r.bus| == 6 && (w == IdEntry(p) || w == QueryEntry(p)) && Complete(r, w, read)
    ensures var e0, e1, e2 := Entry(First(p), 0xaa), Entry(Second(p), 0x55), Entry(First(p), 0xf0);
      var t := AfterWrite(p, AfterWrite(p, AfterWrite(p, r, e0), e1), e2);
      if p != Sst39 || read then t == Empty() else t.cnt == 6
  {
  }

  /** What reads answer in the mode that `w` enters. */
  function ModeAnswer(p: Part, ids: Ids, w: seq<Entry>, offset: nat): bv32 {
    if w == IdEntry(p) then IdCode(p, ids, offset) else TableWord(ids, if p == Am29Byte then offset / 2 else offset)
  }

  /** The ID codes stand at offsets 0 and 1, of a byte-wide part 0 and 2, which an Am29 counts modulo 0x100, and every
      other offset reads 0; the query table is read at its own offsets, of a byte-wide part at twice them. */
  lemma ModeAnswersAre(p: Part, ids: Ids, offset: nat)
    ensures var o, second := if p == Sst39 then offset else offset % 0x100, if p == Am29Byte then 2 else 1;
      ModeAnswer(p, ids, IdEntry(p), offset) == if o == 0 then ids.manufacturer else if o == second then ids.device else 0
    ensures var o := if p == Am29Byte then offset / 2 else offset;
      ModeAnswer(p, ids, QueryEntry(p), offset) == if o < |ids.table| then ids.table[o] else 0
  {
    assert IdEntry(p)[0].data == 0xaa && (|QueryEntry(p)| == 3 ==> QueryEntry(p)[2].data == 0x98) && IdEntry(p)[2].data == 0x90;
  }

  lemma CompleteAnswers(p: Part, ids: Ids, r: History, w: seq<Entry>, read: bool, offset: nat, stored: bv32, was: bv32)
    requires |r.bus| == 6 && (w == IdEntry(p) || (w == QueryEntry(p) && (p != Sst39 ==> ids.table != [])))
    requires Complete(r, w, read)
    ensures Answer(p, ids, r, offset, stored, was) == ModeAnswer(p, ids, w, offset)
  {
    hide TableWord, IdCode;
  }

  lemma NoAnswer(p: Part, ids: Ids, r: History, offset: nat, stored: bv32, was: bv32)
    requires |r.bus| == 6 && r.cnt !in {1, 3}
    ensures Answer(p, ids, r, offset, stored, was) == if r.cnt == 0 then stored else was
  {
    hide TableWord, IdCode;
  }

  /** With no writes since a read and no command waiting, either way out clears the history. */
  lemma IdleExit(p: Part, r: History, exit: seq<Entry>)
    requires |r.bus| == 6 && r.nBus == 0 && r.cnt !in {3, 5} && IsExit(p, exit)
    ensures AfterWrites(p, r, exit) == Empty()
  {
    if |exit| == 1 {
      assert exit[1..] == [];
      assert AfterWrites(p, r, exit) == AfterWrites(p, AfterWrite(p, r, exit[0]), []);
    } else {
      ThreeWrites(p, r, exit);
      hide AfterWrites;
    }
  }

  /** After the entry into either mode every read answers with the codes or the table; either way out then brings array
      data back, except that an SST39 needs a read in between. Without one it neither leaves nor stays: from then on
      reads answer nothing, but after any of them the same way out works. */
  lemma ModesAndBack(p: Part, ids: Ids, b: seq<Event>, w: seq<Entry>, k: nat, exit: seq<Entry>, j: nat,
                     offset: nat, stored: bv32, was: bv32)
    requires Boundary(p, b) && (w == IdEntry(p) || (w == QueryEntry(p) && (p != Sst39 ==> ids.table != [])))
    requires IsExit(p, exit)
    ensures var h := b + Writes(w) + Reads(k);
      && Answer(p, ids, Run(p, h), offset, stored, was) == ModeAnswer(p, ids, w, offset)
      && Answer(p, ids, Run(p, h + Writes(exit) + Reads(j)), offset, stored, was)
           == (if p != Sst39 || k > 0 then stored else was)
      && (j > 0 ==> Answer(p, ids, Run(p, h + Writes(exit) + Reads(j) + Writes(exit)), offset, stored, was) == stored)
  {
    var h := b + Writes(w) + Reads(k);
    Entered(p, b, w, k);
    CompleteAnswers(p, ids, Run(p, h), w, k > 0, offset, stored, was);
    Exited(p, Run(p, h), w, k > 0, exit);
    RunWrites(p, h, exit);
    ReadsKeep(p, h + Writes(exit), j);
    var r := Run(p, h + Writes(exit) + Reads(j));
    NoAnswer(p, ids, r, offset, stored, was);
    if j > 0 {
      IdleExit(p, r, exit);
      RunWrites(p, h + Writes(exit) + Reads(j), exit);
      NoAnswer(p, ids, Empty(), offset, stored, was);
    }
    hide Run, Answer, IdCode, AfterWrites, ModeAnswer;
  }

  /** A chip: the SST39 takes halfword commands, an Am29 bytes or halfwords as it was set up. */
  class Chip {
    const part: Part
    const sizes: Sizes
    const bank: Bank
    const ids: Ids
    var history: History

    ghost predicate Valid()
      reads this
    {
      && WellFormed(history) && bank.Valid() && Sane(sizes) && sizes.chip <= 4 * bank.words.Length
      && bank.base + sizes.chip < 0x1_0000_0000
    }

    constructor (part: Part, sizes: Sizes, bank: Bank, ids: Ids)
      requires bank.Valid() && Sane(sizes) && sizes.chip <= 4 * bank.words.Length
      requires bank.base + sizes.chip < 0x1_0000_0000
      ensures Valid() && this.part == part && this.sizes == sizes && this.bank == bank && this.ids == ids
      ensures history == Empty()
    {
      this.part, this.sizes, this.bank, this.ids, history := part, sizes, bank, ids, Empty();
    }

    method ProgramAt(addr: nat, data: bv32)
      requires Valid() && bank.Covers(addr)
      modifies bank.words
      ensures bank.Bytes() == Programmed(part, bank.base, bank.big, old(bank.Bytes()), addr, data)
    {
      hide Low, HalfPut, HalfOf, Bank.Bytes;
      if part == Am29Byte {
        bank.WriteByte(addr, data);
      } else {
        bank.WriteHalfword(addr, data);
      }
    }

    method EraseAt(addr: nat, data: bv32)
      requires Valid() && bank.Covers(addr)
      modifies bank.words
      ensures bank.Bytes() == EraseAccepted(part, sizes, bank.base, old(bank.Bytes()), addr, data)
    {
      RangeFits(part, sizes, bank.base, addr, data);
      hide Erased, Bank.Bytes, EraseRange, Sane;
      var (start, end) := EraseRange(part, sizes, bank.base, addr, data);
      if start < end <= bank.base + sizes.chip {
        EraseWords(bank, start, end);
      }
    }

    /** A command or data write; false when the device reports no hit. */
    method Write(addr: nat, data: bv32) returns (hit: bool)
      requires Valid() && bank.Covers(addr)
      modifies this, bank.words
      ensures Valid()
      ensures history == AfterWrite(part, old(history),
                                    Entry(if part == Am29Byte then addr - bank.base else (addr - bank.base) / 2, data))
      ensures bank.Bytes() == ArrayAfter(part, sizes, bank.base, bank.big, old(bank.Bytes()), old(history), addr, data)
      ensures hit <==> Act(part, old(history), data) != Drop
    {
      hide ProgramUnlocked, EraseUnlocked, Ends, Programmed, EraseAccepted, Bank.Bytes;
      var e := Entry(Offset(addr), data);
      hit := true;
      if part != Sst39 && history.nBus == 0 && (data == 0xb0 || data == 0x30) {
        return false;
      }
      if ProgramUnlocked(part, history) {
        ProgramAt(addr, data);
        history := Empty();
        return;
      }
      if EraseUnlocked(part, history) {
        EraseAt(addr, data);
        history := Empty();
        return;
      }
      var recorded := history.nBus < 6;
      if recorded {
        history := History(history.nBus + 1, history.nBus + 1, history.bus[history.nBus := e]);
      }
      if Ends(part, history, data, recorded) {
        history := Empty();
      }
    }

    /** A read; `was` is what the caller's variable holds. The recorded count is forgotten. */
    method Read(addr: nat, was: bv32) returns (data: bv32)
      requires Valid() && bank.Covers(addr)
      modifies this
      ensures Valid() && history == AfterRead(old(history))
      ensures data == Answer(part, ids, old(history), Offset(addr), Stored(addr), was)
    {
      hide Command, Query, TableWord, Bank.Bytes;
      data := was;
      if part == Sst39 {
        if Command(part, history, 0x90) {
          data := IdCode(part, ids, Offset(addr));
        }
        if Command(part, history, 0x98) {
          data := TableWord(ids, Offset(addr));
        }
      } else if history.cnt > 0 {
        if ids.table != [] && Query(part, history) {
          data := TableWord(ids, if part == Am29Byte then Offset(addr) / 2 else Offset(addr));
        }
        if Command(part, history, 0x90) {
          data := IdCode(part, ids, Offset(addr));
        }
      }
      OneCommand(part, history);
      if history.cnt == 0 {
        data := Stored(addr);
      }
      history := history.(nBus := 0);
    }

    /** The address as the recogniser sees it. */
    function Offset(addr: nat): nat
      requires bank.base <= addr
    {
      if part == Am29Byte then addr - bank.base else (addr - bank.base) / 2
    }

    /** The array's byte or halfword at an address. */
    function Stored(addr: nat): (data: bv32)
      requires bank.Valid() && bank.Covers(addr)
      reads bank.words
      ensures data == if part == Am29Byte then bank.Bytes()[addr - bank.base]
                      else HalfAt(bank.Bytes(), bank.big, HalfOf(addr - bank.base, bank.words.Length))
    {
      if part == Am29Byte then bank.ReadByte(addr) else bank.ReadHalfword(addr)
    }
  }

  /** At most one of the read commands is recorded. */
  lemma OneCommand(p: Part, r: History)
    requires |r.bus| == 6
    ensures !(Command(p, r, 0x90) && Command(p, r, 0x98))
    ensures Query(p, r) ==> !Command(p, r, 0x90)
    ensures r.cnt == 0 ==> !Command(p, r, 0x90) && !Command(p, r, 0x98)
  {
  }
}
