/** ARM memory banks: 32-bit words with byte lanes in either byte order, and the image loader. */
module ArmMemory {

  // ---------- Byte lanes of a word ----------

  /** `(w >> o) & mask` */
  function GetField(w: bv32, o: bv32, mask: bv32): bv32
    requires o <= 24
  {
    (w >> o) & mask
  }

  /** `(w & ~(mask << o)) | ((data & mask) << o)` */
  function PutField(w: bv32, o: bv32, mask: bv32, data: bv32): bv32
    requires o <= 24
  {
    (w & !(mask << o)) | ((data & mask) << o)
  }

  /** `addr & 3` */
  function Low2(addr: nat): bv32 {
    match addr % 4 case 0 => 0 case 1 => 1 case 2 => 2 case _ => 3
  }

  function TimesEight(x: bv32): bv32 {
    x << (3 as bv6)
  }

  /** The bit offset the byte accesses compute from the address. */
  function ByteShift(big: bool, addr: nat): (o: bv32)
    ensures o == LaneShift(big, addr % 4)
  {
    TimesEight((if big then 3 else 0) ^ Low2(addr))
  }

  /** The bit offset the halfword accesses compute; they ignore the lowest address bit. */
  function HalfShift(big: bool, addr: nat): (o: bv32)
    ensures o == LaneShift(big, (if addr % 4 < 2 then 0 else 2) + if big then 1 else 0)
  {
    TimesEight((if big then 2 else 0) ^ (Low2(addr) & 2))
  }

  /** Where the byte at address `k` of a word stands: little-endian from the low end, big-endian from the high end. */
  function LaneShift(big: bool, k: nat): (o: bv32)
    requires k < 4
    ensures o == 0 || o == 8 || o == 16 || o == 24
  {
    match if big then 3 - k else k
    case 0 => 0
    case 1 => 8
    case 2 => 16
    case _ => 24
  }

  /** The byte at address `k` of a word. */
  function Lane(big: bool, w: bv32, k: nat): (b: bv32)
    requires k < 4
  {
    GetField(w, LaneShift(big, k), 0xff)
  }

  function Low(data: bv32): bv32 {
    data & 0xff
  }

  function Pair(low: bv32, high: bv32): bv32 {
    low | (high << (8 as bv6))
  }

  function Join(b0: bv32, b1: bv32, b2: bv32, b3: bv32): bv32 {
    b0 | (b1 << (8 as bv6)) | (b2 << (16 as bv6)) | (b3 << (24 as bv6))
  }

  lemma PutByteAt0(w: bv32, data: bv32)
    ensures GetField(PutField(w, 0, 0xff, data), 0, 0xff) == Low(data)
    ensures GetField(PutField(w, 0, 0xff, data), 8, 0xff) == GetField(w, 8, 0xff)
    ensures GetField(PutField(w, 0, 0xff, data), 16, 0xff) == GetField(w, 16, 0xff)
    ensures GetField(PutField(w, 0, 0xff, data), 24, 0xff) == GetField(w, 24, 0xff)
  {
  }

  lemma PutByteAt8(w: bv32, data: bv32)
    ensures GetField(PutField(w, 8, 0xff, data), 0, 0xff) == GetField(w, 0, 0xff)
    ensures GetField(PutField(w, 8, 0xff, data), 8, 0xff) == Low(data)
    ensures GetField(PutField(w, 8, 0xff, data), 16, 0xff) == GetField(w, 16, 0xff)
    ensures GetField(PutField(w, 8, 0xff, data), 24, 0xff) == GetField(w, 24, 0xff)
  {
  }

  lemma PutByteAt16(w: bv32, data: bv32)
    ensures GetField(PutField(w, 16, 0xff, data), 0, 0xff) == GetField(w, 0, 0xff)
    ensures GetField(PutField(w, 16, 0xff, data), 8, 0xff) == GetField(w, 8, 0xff)
    ensures GetField(PutField(w, 16, 0xff, data), 16, 0xff) == Low(data)
    ensures GetField(PutField(w, 16, 0xff, data), 24, 0xff) == GetField(w, 24, 0xff)
  {
  }

  lemma PutByteAt24(w: bv32, data: bv32)
    ensures GetField(PutField(w, 24, 0xff, data), 0, 0xff) == GetField(w, 0, 0xff)
    ensures GetField(PutField(w, 24, 0xff, data), 8, 0xff) == GetField(w, 8, 0xff)
    ensures GetField(PutField(w, 24, 0xff, data), 16, 0xff) == GetField(w, 16, 0xff)
    ensures GetField(PutField(w, 24, 0xff, data), 24, 0xff) == Low(data)
  {
  }

  lemma PutHalfAt0(w: bv32, data: bv32)
    ensures GetField(PutField(w, 0, 0xffff, data), 0, 0xff) == Low(data)
    ensures GetField(PutField(w, 0, 0xffff, data), 8, 0xff) == GetField(data, 8, 0xff)
    ensures GetField(PutField(w, 0, 0xffff, data), 16, 0xff) == GetField(w, 16, 0xff)
    ensures GetField(PutField(w, 0, 0xffff, data), 24, 0xff) == GetField(w, 24, 0xff)
  {
  }

  lemma PutHalfAt16(w: bv32, data: bv32)
    ensures GetField(PutField(w, 16, 0xffff, data), 0, 0xff) == GetField(w, 0, 0xff)
    ensures GetField(PutField(w, 16, 0xffff, data), 8, 0xff) == GetField(w, 8, 0xff)
    ensures GetField(PutField(w, 16, 0xffff, data), 16, 0xff) == Low(data)
    ensures GetField(PutField(w, 16, 0xffff, data), 24, 0xff) == GetField(data, 8, 0xff)
  {
  }

  /** Storing a byte changes the byte at its bit offset and no other. */
  lemma PutByteBits(w: bv32, o: bv32, data: bv32, p: bv32)
    requires o in {0, 8, 16, 24} && p in {0, 8, 16, 24}
    ensures GetField(PutField(w, o, 0xff, data), p, 0xff) == if p == o then Low(data) else GetField(w, p, 0xff)
  {
    hide GetField, PutField, Low;
    PutByteAt0(w, data);
    PutByteAt8(w, data);
    PutByteAt16(w, data);
    PutByteAt24(w, data);
  }

  /** Storing a halfword changes its two bytes and no other. */
  lemma PutHalfBits(w: bv32, o: bv32, data: bv32, p: bv32)
    requires o in {0, 16} && p in {0, 8, 16, 24}
    ensures GetField(PutField(w, o, 0xffff, data), p, 0xff)
      == if p == o then Low(data) else if p == o + 8 then GetField(data, 8, 0xff) else GetField(w, p, 0xff)
  {
    hide GetField, PutField, Low;
    PutHalfAt0(w, data);
    PutHalfAt16(w, data);
  }

  lemma GetHalfBits(w: bv32, o: bv32)
    requires o in {0, 16}
    ensures GetField(w, o, 0xffff) == Pair(GetField(w, o, 0xff), GetField(w, o + 8, 0xff))
  {
  }

  lemma JoinFields(b0: bv32, b1: bv32, b2: bv32, b3: bv32)
    requires b0 < 0x100 && b1 < 0x100 && b2 < 0x100 && b3 < 0x100
    ensures GetField(Join(b0, b1, b2, b3), 0, 0xff) == b0 && GetField(Join(b0, b1, b2, b3), 8, 0xff) == b1
    ensures GetField(Join(b0, b1, b2, b3), 16, 0xff) == b2 && GetField(Join(b0, b1, b2, b3), 24, 0xff) == b3
  {
  }

  lemma FieldsJoin(w: bv32)
    ensures w == Join(GetField(w, 0, 0xff), GetField(w, 8, 0xff), GetField(w, 16, 0xff), GetField(w, 24, 0xff))
  {
  }

  // ---------- A bank as one row of bytes ----------

  /** The bank's bytes in address order, in the given byte order. */
  function Flat(big: bool, words: seq<bv32>): (f: seq<bv32>)
    ensures |f| == 4 * |words|
    ensures forall i :: 0 <= i < |f| ==> f[i] == Lane(big, words[i / 4], i % 4)
  {
    seq(4 * |words|, i requires 0 <= i < 4 * |words| => Lane(big, words[i / 4], i % 4))
  }

  function HalfAt(f: seq<bv32>, big: bool, i: nat): bv32
    requires i + 1 < |f|
  {
    if big then Pair(f[i + 1], f[i]) else Pair(f[i], f[i + 1])
  }

  function WordAt(f: seq<bv32>, big: bool, i: nat): bv32
    requires i + 3 < |f|
  {
    if big then Join(f[i + 3], f[i + 2], f[i + 1], f[i]) else Join(f[i], f[i + 1], f[i + 2], f[i + 3])
  }

  /** `f` with a value's bytes at `i`, least significant first or last. */
  function HalfPut(f: seq<bv32>, big: bool, i: nat, data: bv32): seq<bv32>
    requires i + 1 < |f|
  {
    var b0, b1 := Low(data), GetField(data, 8, 0xff);
    if big then f[i := b1][i + 1 := b0] else f[i := b0][i + 1 := b1]
  }

  function WordPut(f: seq<bv32>, big: bool, i: nat, data: bv32): seq<bv32>
    requires i + 3 < |f|
  {
    var b0, b1, b2, b3 := GetField(data, 0, 0xff), GetField(data, 8, 0xff), GetField(data, 16, 0xff), GetField(data, 24, 0xff);
    if big then f[i := b3][i + 1 := b2][i + 2 := b1][i + 3 := b0] else f[i := b0][i + 1 := b1][i + 2 := b2][i + 3 := b3]
  }

  lemma FlatByte(big: bool, words: seq<bv32>, i: nat, data: bv32)
    requires i < 4 * |words|
    ensures Flat(big, words[i / 4 := PutField(words[i / 4], LaneShift(big, i % 4), 0xff, data)])
         == Flat(big, words)[i := Low(data)]
  {
    hide GetField, PutField, Low, Flat;
    var k := i / 4;
    var w := PutField(words[k], LaneShift(big, i % 4), 0xff, data);
    forall j | 0 <= j < 4
      ensures Lane(big, w, j) == if j == i % 4 then Low(data) else Lane(big, words[k], j)
    {
      PutByteBits(words[k], LaneShift(big, i % 4), data, LaneShift(big, j));
    }
    var u := words[k := w];
    var f := Flat(big, words)[i := Low(data)];
    forall m | 0 <= m < 4 * |words|
      ensures Flat(big, u)[m] == f[m]
    {
      assert m / 4 == k && m % 4 == i % 4 ==> m == i;
    }
  }

  /** The halfword and the word a byte index belongs to. */
  function HalfOf(i: nat, words: nat): (a: nat)
    requires i < 4 * words
    ensures a + 1 < 4 * words && a / 4 == i / 4 && a % 4 == if i % 4 < 2 then 0 else 2
  {
    var q, r := i / 4, i % 4;
    assert i == 4 * q + r;
    4 * q + if r < 2 then 0 else 2
  }

  function WordOf(i: nat, words: nat): (a: nat)
    requires i < 4 * words
    ensures a % 4 == 0 && a + 3 < 4 * words && a / 4 == i / 4
  {
    i / 4 * 4
  }

  lemma SameLane(addr: nat, base: nat)
    requires base % 4 == 0 && base <= addr
    ensures addr % 4 == (addr - base) % 4
  {
  }

  lemma FlatHalf(big: bool, words: seq<bv32>, i: nat, data: bv32)
    requires i < 4 * |words|
    ensures Flat(big, words[i / 4 := PutField(words[i / 4], HalfShift(big, i), 0xffff, data)])
         == HalfPut(Flat(big, words), big, HalfOf(i, |words|), data)
  {
    hide GetField, PutField, Low, Flat, HalfOf;
    var k, a := i / 4, HalfOf(i, |words|);
    var w := PutField(words[k], HalfShift(big, i), 0xffff, data);
    forall j | 0 <= j < 4 {
      PutHalfBits(words[k], HalfShift(big, i), data, LaneShift(big, j));
    }
    var u := words[k := w];
    var f := HalfPut(Flat(big, words), big, a, data);
    forall m | 0 <= m < 4 * |words|
      ensures Flat(big, u)[m] == f[m]
    {
      assert Flat(big, u)[m] == Lane(big, u[m / 4], m % 4);
      assert m / 4 == k && m % 4 == a % 4 ==> m == a;
      assert m / 4 == k && m % 4 == a % 4 + 1 ==> m == a + 1;
    }
  }

  lemma WordPutByte(f: seq<bv32>, big: bool, a: nat, data: bv32, m: nat)
    requires a + 3 < |f| && m < |f|
    ensures |WordPut(f, big, a, data)| == |f|
    ensures WordPut(f, big, a, data)[m] == if a <= m < a + 4 then GetField(data, LaneShift(big, m - a), 0xff) else f[m]
  {
    hide GetField;
  }

  lemma FlatWord(big: bool, words: seq<bv32>, i: nat, data: bv32)
    requires i < 4 * |words|
    ensures Flat(big, words[i / 4 := data]) == WordPut(Flat(big, words), big, WordOf(i, |words|), data)
  {
    hide GetField, Flat, WordOf, WordPut, LaneShift;
    var u, a := words[i / 4 := data], WordOf(i, |words|);
    var f := WordPut(Flat(big, words), big, a, data);
    WordPutByte(Flat(big, words), big, a, data, a);
    forall m | 0 <= m < 4 * |words|
      ensures Flat(big, u)[m] == f[m]
    {
      WordPutByte(Flat(big, words), big, a, data, m);
      assert m / 4 == i / 4 <==> a <= m < a + 4;
      assert a <= m < a + 4 ==> m % 4 == m - a;
    }
  }

  lemma ReadHalfFlat(big: bool, words: seq<bv32>, i: nat)
    requires i < 4 * |words|
    ensures GetField(words[i / 4], HalfShift(big, i), 0xffff) == HalfAt(Flat(big, words), big, HalfOf(i, |words|))
  {
    hide GetField, Pair, HalfOf, Flat;
    GetHalfBits(words[i / 4], HalfShift(big, i));
    var f, a := Flat(big, words), HalfOf(i, |words|);
    assert f[a] == Lane(big, words[i / 4], a % 4);
    assert f[a + 1] == Lane(big, words[i / 4], a % 4 + 1);
  }

  lemma ReadWordFlat(big: bool, words: seq<bv32>, i: nat)
    requires i < 4 * |words|
    ensures words[i / 4] == WordAt(Flat(big, words), big, WordOf(i, |words|))
  {
    hide GetField, Join, WordOf, Flat;
    var w := words[i / 4];
    FieldsJoin(w);
    var f, a := Flat(big, words), WordOf(i, |words|);
    assert f[a] == Lane(big, w, 0) && f[a + 1] == Lane(big, w, 1);
    assert f[a + 2] == Lane(big, w, 2) && f[a + 3] == Lane(big, w, 3);
  }

  lemma ShiftsAgree(big: bool, addr: nat, base: nat)
    requires base % 4 == 0 && base <= addr
    ensures ByteShift(big, addr) == ByteShift(big, addr - base) && HalfShift(big, addr) == HalfShift(big, addr - base)
  {
    hide TimesEight;
    SameLane(addr, base);
  }

  // ---------- Loading an image ----------

  /** The word `mem_reset` makes of the four bytes in memory, first byte first. */
  function Assembled(big: bool, p0: bv32, p1: bv32, p2: bv32, p3: bv32): bv32 {
    if big then Join(p3, p2, p1, p0) else Join(p0, p1, p2, p3)
  }

  /** That word from the four bytes the host has at a word's place. */
  function Swapped(big: bool, hostBig: bool, w: bv32): bv32 {
    Assembled(big, Lane(hostBig, w, 0), Lane(hostBig, w, 1), Lane(hostBig, w, 2), Lane(hostBig, w, 3))
  }

  lemma SwappedLane(big: bool, hostBig: bool, w: bv32, k: nat)
    requires k < 4
    ensures Lane(big, Swapped(big, hostBig, w), k) == Lane(hostBig, w, k)
  {
    hide Lane, Assembled;
    LaneSmall(hostBig, w, 0);
    LaneSmall(hostBig, w, 1);
    LaneSmall(hostBig, w, 2);
    LaneSmall(hostBig, w, 3);
    AssembledLane(big, Lane(hostBig, w, 0), Lane(hostBig, w, 1), Lane(hostBig, w, 2), Lane(hostBig, w, 3));
  }

  lemma AssembledLane(big: bool, p0: bv32, p1: bv32, p2: bv32, p3: bv32)
    requires p0 < 0x100 && p1 < 0x100 && p2 < 0x100 && p3 < 0x100
    ensures var w := Assembled(big, p0, p1, p2, p3);
      Lane(big, w, 0) == p0 && Lane(big, w, 1) == p1 && Lane(big, w, 2) == p2 && Lane(big, w, 3) == p3
  {
    hide GetField, Join;
    if big {
      JoinFields(p3, p2, p1, p0);
    } else {
      JoinFields(p0, p1, p2, p3);
    }
  }

  lemma LaneSmall(big: bool, w: bv32, k: nat)
    requires k < 4
    ensures Lane(big, w, k) < 0x100
  {
    ByteSmall(w, LaneShift(big, k));
  }

  lemma ByteSmall(w: bv32, o: bv32)
    requires o <= 24
    ensures GetField(w, o, 0xff) < 0x100
  {
  }

  predicate Octets(data: seq<bv32>) {
    forall i :: 0 <= i < |data| ==> data[i] < 0x100
  }

  lemma LowOctet(x: bv32)
    requires x < 0x100
    ensures Low(x) == x
  {
  }

  /** A byte stored at `i` of the host's memory. */
  method HostStore(words: array<bv32>, i: nat, data: bv32, hostBig: bool)
    requires i < 4 * words.Length && data < 0x100
    modifies words
    ensures Flat(hostBig, words[..]) == old(Flat(hostBig, words[..]))[i := data]
  {
    hide GetField, PutField, Low, Flat, LaneShift;
    ghost var u := words[..];
    words[i / 4] := PutField(words[i / 4], LaneShift(hostBig, i % 4), 0xff, data);
    assert words[..] == u[i / 4 := words[i / 4]];
    FlatByte(hostBig, u, i, data);
    LowOctet(data);
  }

  lemma PutNext(data: seq<bv32>, f: seq<bv32>, i: nat)
    requires i < |data| <= |f|
    ensures (data[..i] + f[i..])[i := data[i]] == data[..i + 1] + f[i + 1..]
  {
  }

  /** fread: the file's bytes land in host byte order; `words` beyond them keep their bytes. */
  method Fread(words: array<bv32>, data: seq<bv32>, hostBig: bool)
    requires Octets(data) && |data| <= 4 * words.Length
    modifies words
    ensures Flat(hostBig, words[..]) == data + old(Flat(hostBig, words[..]))[|data|..]
  {
    hide Flat;
    ghost var f := Flat(hostBig, words[..]);
    assert data[..0] + f[0..] == f;
    for i := 0 to |data|
      invariant Flat(hostBig, words[..]) == data[..i] + f[i..]
    {
      HostStore(words, i, data[i], hostBig);
      PutNext(data, f, i);
    }
    assert data[..|data|] == data;
  }

  /** The loop that reassembles each word in the bank's byte order. */
  method SwapWords(words: array<bv32>, big: bool, hostBig: bool)
    modifies words
    ensures Flat(big, words[..]) == old(Flat(hostBig, words[..]))
  {
    hide Swapped, Flat, Lane;
    var s := 0;
    while s < words.Length
      invariant 0 <= s <= words.Length
      invariant forall k :: 0 <= k < s ==> words[k] == Swapped(big, hostBig, old(words[k]))
      invariant forall k :: s <= k < words.Length ==> words[k] == old(words[k])
    {
      var w := words[s];
      words[s] := Swapped(big, hostBig, w);
      s := s + 1;
    }
    ghost var f := Flat(big, words[..]);
    forall i | 0 <= i < |f|
      ensures f[i] == old(Flat(hostBig, words[..]))[i]
    {
      SwappedLane(big, hostBig, old(words[i / 4]), i % 4);
    }
  }

  /** One memory bank: `addr`, the byte order `bigendSig`, and `mem.rom`. */
  class Bank {
    const base: nat
    const big: bool
    const words: array<bv32>

    ghost predicate Valid() {
      base % 4 == 0
    }

    predicate Covers(addr: nat) {
      base <= addr && addr - base < 4 * words.Length
    }

    function Bytes(): (f: seq<bv32>)
      reads words
      ensures |f| == 4 * words.Length
    {
      Flat(big, words[..])
    }

    constructor (base: nat, big: bool, words: array<bv32>)
      requires base % 4 == 0
      ensures Valid() && this.base == base && this.big == big && this.words == words
    {
      this.base, this.big, this.words := base, big, words;
    }

    /** real_read_byte */
    function ReadByte(addr: nat): (r: bv32)
      requires Valid() && Covers(addr)
      reads words
      ensures r == Bytes()[addr - base]
    {
      hide GetField, PutField, Low, Flat, HalfOf, WordOf, ByteShift, HalfShift, HalfAt, WordAt, HalfPut, WordPut;
      ShiftsAgree(big, addr, base);
      GetField(words[(addr - base) / 4], ByteShift(big, addr), 0xff)
    }

    /** real_read_halfword */
    function ReadHalfword(addr: nat): (r: bv32)
      requires Valid() && Covers(addr)
      reads words
      ensures r == HalfAt(Bytes(), big, HalfOf(addr - base, words.Length))
    {
      hide GetField, PutField, Low, Flat, HalfOf, WordOf, ByteShift, HalfShift, HalfAt, WordAt, HalfPut, WordPut;
      ShiftsAgree(big, addr, base);
      ReadHalfFlat(big, words[..], addr - base);
      GetField(words[(addr - base) / 4], HalfShift(big, addr), 0xffff)
    }

    /** real_read_word */
    function ReadWord(addr: nat): (r: bv32)
      requires Valid() && Covers(addr)
      reads words
      ensures r == WordAt(Bytes(), big, WordOf(addr - base, words.Length))
    {
      hide GetField, PutField, Low, Flat, HalfOf, WordOf, ByteShift, HalfShift, HalfAt, WordAt, HalfPut, WordPut;
      ReadWordFlat(big, words[..], addr - base);
      words[(addr - base) / 4]
    }

    /** real_write_byte */
    method WriteByte(addr: nat, data: bv32)
      requires Valid() && Covers(addr)
      modifies words
      ensures Bytes() == old(Bytes())[addr - base := Low(data)]
    {
      hide GetField, PutField, Low, Flat, HalfOf, WordOf, ByteShift, HalfShift, HalfAt, WordAt, HalfPut, WordPut;
      var k := (addr - base) / 4;
      ShiftsAgree(big, addr, base);
      FlatByte(big, words[..], addr - base, data);
      words[k] := PutField(words[k], ByteShift(big, addr), 0xff, data);
      assert words[..] == old(words[..])[k := words[k]];
    }

    /** real_write_halfword; the lowest address bit is ignored. */
    method WriteHalfword(addr: nat, data: bv32)
      requires Valid() && Covers(addr)
      modifies words
      ensures Bytes() == HalfPut(old(Bytes()), big, HalfOf(addr - base, words.Length), data)
    {
      hide GetField, PutField, Low, Flat, HalfOf, WordOf, ByteShift, HalfShift, HalfAt, WordAt, HalfPut, WordPut;
      var k := (addr - base) / 4;
      ShiftsAgree(big, addr, base);
      FlatHalf(big, words[..], addr - base, data);
      words[k] := PutField(words[k], HalfShift(big, addr), 0xffff, data);
      assert words[..] == old(words[..])[k := words[k]];
    }

    /** real_write_word; the two lowest address bits are ignored. */
    method WriteWord(addr: nat, data: bv32)
      requires Valid() && Covers(addr)
      modifies words
      ensures Bytes() == WordPut(old(Bytes()), big, WordOf(addr - base, words.Length), data)
    {
      hide GetField, PutField, Low, Flat, HalfOf, WordOf, ByteShift, HalfShift, HalfAt, WordAt, HalfPut, WordPut;
      var k := (addr - base) / 4;
      FlatWord(big, words[..], addr - base, data);
      words[k] := data;
      assert words[..] == old(words[..])[k := data];
    }

    /** The image load of mem_reset, on a host of either byte order; an empty read stops the simulator. */
    method Load(file: seq<bv32>, hostBig: bool) returns (ok: bool)
      requires Valid() && Octets(file)
      modifies words
      ensures var n := if |file| < 4 * words.Length then |file| else 4 * words.Length;
        && (ok <==> 0 < n)
        && Bytes() == if ok then file[..n] + old(Flat(hostBig, words[..]))[n..] else old(Bytes())
    {
      hide Flat;
      var n := if |file| < 4 * words.Length then |file| else 4 * words.Length;
      ok := 0 < n;
      if ok {
        Fread(words, file[..n], hostBig);
        SwapWords(words, big, hostBig);
      }
    }
  }
}
