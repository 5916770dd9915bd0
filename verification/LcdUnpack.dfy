/** skyeye_convert_color_from_lcd_dma: unpacking pixels from the words of a frame buffer. */
module LcdUnpack {
  import opened BitFields
  import opened Common

  /** The fields of `struct lcd_device` that the converter reads. */
  datatype LcdDevice = LcdDevice(
    width: int, height: int, depth: int, lineOffset: nat,
    rightToLeft: int, swapWord: int, lookup: Option<nat -> nat>)

  predicate Depth(d: int) {
    d == 1 || d == 2 || d == 4 || d == 8 || d == 16 || d == 32
  }

  /** `q % d == 0`. */
  predicate Aligned(q: int, d: int) {
    && (d == 2 ==> q % 2 == 0) && (d == 4 ==> q % 4 == 0) && (d == 8 ==> q % 8 == 0)
    && (d == 16 ==> q % 16 == 0) && (d == 32 ==> q % 32 == 0)
  }

  /** A pixel can start at bit `k` of byte `i` of a word. */
  predicate AtPixel(i: int, k: int, d: int) {
    0 <= i < 4 && 0 <= k < 8 &&
    if d == 32 then i == k == 0 else if d == 16 then (i == 0 || i == 2) && k == 0 else Aligned(k, d)
  }

  lemma AlignedAtPixel(p: nat, d: int)
    requires Depth(d) && Aligned(p, d)
    ensures AtPixel(p % 32 / 8, p % 8, d)
    ensures p == p / 32 * 32 + p % 32 / 8 * 8 + p % 8
  {
    var q, r := p / 32, p % 32;
    var b, k := r / 8, r % 8;
    assert p == 32 * q + 8 * b + k;
    DivUnique(p, 8, 4 * q + b, k);
    if d == 2 {
      DivUnique(p, 2, 16 * q + 4 * b + k / 2, k % 2);
    } else if d == 4 {
      DivUnique(p, 4, 8 * q + 2 * b + k / 4, k % 4);
    } else if d == 16 {
      DivUnique(p, 16, 2 * q + r / 16, r % 16);
      assert r == 0 || r == 16;
    }
  }

  /** The test the converter makes before it touches the frame buffer. */
  predicate Accepts(lcd: LcdDevice, x: int, y: int, w: int, h: int) {
    && Depth(lcd.depth)
    && 0 < lcd.width && 0 <= x && 0 < w && x + w <= lcd.width
    && 0 < lcd.height && 0 <= y && 0 < h && y + h <= lcd.height
  }

  /** Where pixel (row, col) starts, in bits from the start of the frame buffer. */
  function PixelBit(lcd: LcdDevice, row: int, col: int): int {
    ((lcd.width + lcd.lineOffset) * row + col) * lcd.depth
  }

  function Swap(b: u32): u32 {
    Bits(b, 0, 8) * 0x100_0000 + Bits(b, 8, 8) * 0x1_0000 + Bits(b, 16, 8) * 0x100 + Bits(b, 24, 8)
  }

  function LoadedBlock(word: u32, lcd: LcdDevice, bigHost: bool): u32 {
    if lcd.swapWord == (if bigHost then 0 else 1) then Swap(word) else word
  }

  /** Byte `i` and halfword `i` of a word in the host's memory. */
  function HostByte(block: u32, bigHost: bool, i: nat): nat
    requires i < 4
  {
    Bits(block, 8 * (if bigHost then 3 - i else i), 8)
  }

  function HostHalf(block: u32, bigHost: bool, i: nat): nat
    requires i < 2
  {
    Bits(block, 16 * (if bigHost then 1 - i else i), 16)
  }

  /** The lowest bit, inside its word, of the pixel that starts at bit `k` of byte `i` of the word. */
  function FieldShift(depth: int, right: bool, bigHost: bool, i: nat, k: nat): int
    requires Depth(depth) && i < 4 && k < 8
  {
    var fromTop := right != bigHost;
    if depth < 16 then
      8 * (if fromTop then 3 - i else i) + if right then k else 8 - k - depth
    else if depth == 16 then
      if fromTop == (i < 2) then 16 else 0
    else
      0
  }

  /** What the frame buffer holds at bit position `p`. */
  function Field(lcd: LcdDevice, dma: seq<u32>, bigHost: bool, p: int): nat
    requires Depth(lcd.depth)
  {
    var shift := FieldShift(lcd.depth, lcd.rightToLeft != 0, bigHost, p % 32 / 8, p % 8);
    if 0 <= p && p / 32 < |dma| && 0 <= shift then
      Bits(LoadedBlock(dma[p / 32], lcd, bigHost), shift, lcd.depth)
    else
      0
  }

  lemma MulAligned(n: nat, d: int)
    requires Depth(d)
    ensures 0 <= n * d && Aligned(n * d, d)
  {
    DivUnique(n * d, d, n, 0);
  }

  /** A pixel never straddles a word, and the next pixel of a line starts where it ends. */
  lemma PixelBitAligned(lcd: LcdDevice, row: int, col: int)
    requires Depth(lcd.depth) && 0 <= row && 0 <= col && 0 < lcd.width
    ensures 0 <= PixelBit(lcd, row, col)
    ensures Aligned(PixelBit(lcd, row, col), lcd.depth)
    ensures PixelBit(lcd, row, col + 1) == PixelBit(lcd, row, col) + lcd.depth
  {
    assert (lcd.width + lcd.lineOffset) * row >= 0;
    MulAligned((lcd.width + lcd.lineOffset) * row + col, lcd.depth);
  }

  lemma PixelBitIs(lcd: LcdDevice, row: int, col: int)
    ensures PixelBit(lcd, row, col) == ((lcd.width + lcd.lineOffset) * row + col) * lcd.depth
  {
  }

  lemma FirstAtPixel(d: int)
    requires Depth(d)
    ensures AtPixel(0, 0, d)
  {
  }

  lemma PixelBitNext(lcd: LcdDevice, row: int, col: int)
    ensures PixelBit(lcd, row, col + 1) == PixelBit(lcd, row, col) + lcd.depth
  {
  }

  lemma WholeWord(block: u32)
    ensures Bits(block, 0, 32) == block
  {
    Pow2Values();
    assert block / 1 == block;
  }

  lemma FieldIn(lcd: LcdDevice, dma: seq<u32>, bigHost: bool, buf: nat, i: nat, k: nat)
    requires Depth(lcd.depth) && buf < |dma| && i < 4 && k < 8
    requires FieldShift(lcd.depth, lcd.rightToLeft != 0, bigHost, i, k) >= 0
    ensures Field(lcd, dma, bigHost, 32 * buf + 8 * i + k)
         == Bits(LoadedBlock(dma[buf], lcd, bigHost), FieldShift(lcd.depth, lcd.rightToLeft != 0, bigHost, i, k), lcd.depth)
  {
    hide FieldShift, Bits, LoadedBlock;
    var p := 32 * buf + 8 * i + k;
    assert p / 32 == buf && p % 32 / 8 == i && p % 8 == k;
  }

  /** The three ways the loops compute a colour, each the field at the bit position they have reached. */
  lemma SubByteField(lcd: LcdDevice, dma: seq<u32>, bigHost: bool, buf: nat, i: nat, k: nat)
    requires Depth(lcd.depth) && lcd.depth < 16 && buf < |dma|
    requires i < 4 && k + lcd.depth <= 8
    ensures Bits(HostByte(LoadedBlock(dma[buf], lcd, bigHost), bigHost, if lcd.rightToLeft != 0 then 3 - i else i),
                 if lcd.rightToLeft != 0 then k else 8 - (k + lcd.depth), lcd.depth)
         == Field(lcd, dma, bigHost, 32 * buf + 8 * i + k)
  {
    hide Field, Bits, LoadedBlock;
    var right := lcd.rightToLeft != 0;
    var lane := if right != bigHost then 3 - i else i;
    FieldIn(lcd, dma, bigHost, buf, i, k);
    BitsOfBits(LoadedBlock(dma[buf], lcd, bigHost), 8 * lane, 8, if right then k else 8 - (k + lcd.depth), lcd.depth);
  }

  lemma HalfField(lcd: LcdDevice, dma: seq<u32>, bigHost: bool, buf: nat, i: nat)
    requires lcd.depth == 16 && buf < |dma| && (i == 0 || i == 2)
    ensures HostHalf(LoadedBlock(dma[buf], lcd, bigHost), bigHost, if (lcd.rightToLeft != 0) == (i == 0) then 1 else 0)
         == Field(lcd, dma, bigHost, 32 * buf + 8 * i)
  {
    hide Field, Bits;
    FieldIn(lcd, dma, bigHost, buf, i, 0);
  }

  lemma WordField(lcd: LcdDevice, dma: seq<u32>, bigHost: bool, buf: nat)
    requires lcd.depth == 32 && buf < |dma|
    ensures LoadedBlock(dma[buf], lcd, bigHost) == Field(lcd, dma, bigHost, 32 * buf)
  {
    hide Field, Bits;
    FieldIn(lcd, dma, bigHost, buf, 0, 0);
    WholeWord(LoadedBlock(dma[buf], lcd, bigHost));
  }

  /** The colours of `n` neighbouring pixels, the first one at bit `p`. */
  ghost function Line(lcd: LcdDevice, dma: seq<u32>, bigHost: bool, p: int, n: nat): (r: seq<nat>)
    requires Depth(lcd.depth) && lcd.lookup.Some?
    ensures |r| == n
    decreases n
  {
    if n == 0 then [] else [lcd.lookup.value(Field(lcd, dma, bigHost, p))] + Line(lcd, dma, bigHost, p + lcd.depth, n - 1)
  }

  /** The first `n` lines of the rectangle at (x, y), `w` pixels each. */
  ghost function Picture(lcd: LcdDevice, dma: seq<u32>, bigHost: bool, x: int, y: int, w: nat, n: nat): seq<nat>
    requires Depth(lcd.depth) && lcd.lookup.Some?
    decreases n
  {
    if n == 0 then [] else
    Picture(lcd, dma, bigHost, x, y, w, n - 1) + Line(lcd, dma, bigHost, PixelBit(lcd, y + n - 1, x), w)
  }

  lemma {:induction false} LineAt(lcd: LcdDevice, dma: seq<u32>, bigHost: bool, row: int, x: int, n: nat, c: nat)
    requires Accepts(lcd, x, row, n, 1) && lcd.lookup.Some? && c < n
    decreases c
    ensures Line(lcd, dma, bigHost, PixelBit(lcd, row, x), n)[c]
         == lcd.lookup.value(Field(lcd, dma, bigHost, PixelBit(lcd, row, x + c)))
  {
    hide Field;
    PixelBitAligned(lcd, row, x);
    if c != 0 {
      LineAt(lcd, dma, bigHost, row, x + 1, n - 1, c - 1);
    }
  }

  /** Pixel `j` of the picture, in reading order, is the one at row j / w and column j % w. */
  lemma {:induction false} PictureAt(lcd: LcdDevice, dma: seq<u32>, bigHost: bool, x: int, y: int, w: int, h: int, j: nat)
    requires Accepts(lcd, x, y, w, h) && lcd.lookup.Some? && j < w * h
    ensures |Picture(lcd, dma, bigHost, x, y, w, h)| == w * h
    ensures Picture(lcd, dma, bigHost, x, y, w, h)[j]
         == lcd.lookup.value(Field(lcd, dma, bigHost, PixelBit(lcd, y + j / w, x + j % w)))
  {
    hide Field, PixelBit;
    PictureLength(lcd, dma, bigHost, x, y, w, h);
    PictureLength(lcd, dma, bigHost, x, y, w, h - 1);
    if j < w * (h - 1) {
      PictureAt(lcd, dma, bigHost, x, y, w, h - 1, j);
    } else {
      DivUnique(j, w, h - 1, j - w * (h - 1));
      LineAt(lcd, dma, bigHost, y + h - 1, x, w, j % w);
    }
  }

  lemma {:induction false} PictureLength(lcd: LcdDevice, dma: seq<u32>, bigHost: bool, x: int, y: int, w: nat, n: nat)
    requires Depth(lcd.depth) && lcd.lookup.Some?
    ensures |Picture(lcd, dma, bigHost, x, y, w, n)| == w * n
  {
    hide Field, PixelBit;
    if n != 0 {
      PictureLength(lcd, dma, bigHost, x, y, w, n - 1);
    }
  }

  ghost predicate Runs(lcd: LcdDevice, dma: Option<seq<u32>>, x: int, y: int, w: int, h: int, hasFunc: bool) {
    dma.Some? && lcd.lookup.Some? && hasFunc && Accepts(lcd, x, y, w, h)
  }

  /** Word `a` of the frame buffer holds a pixel of the requested rectangle. */
  ghost predicate HoldsRequested(lcd: LcdDevice, x: int, y: int, w: int, h: int, a: int) {
    exists row, col :: y <= row < y + h && x <= col < x + w && PixelBit(lcd, row, col) / 32 == a
  }

  /** The words of every requested pixel lie in the frame buffer. */
  ghost predicate Backed(lcd: LcdDevice, dma: seq<u32>, x: int, y: int, w: int, h: int) {
    forall row, col :: y <= row < y + h && x <= col < x + w ==> PixelBit(lcd, row, col) / 32 < |dma|
  }

  /** One more pixel read moves the position on by one pixel. */
  lemma LineStep(lcd: LcdDevice, dma: seq<u32>, bigHost: bool, px: seq<nat>, c: nat, p: int, n: nat)
    requires Depth(lcd.depth) && lcd.lookup.Some? && 0 < n && c == Field(lcd, dma, bigHost, p)
    ensures px + Line(lcd, dma, bigHost, p, n)
         == px + [lcd.lookup.value(c)] + Line(lcd, dma, bigHost, p + lcd.depth, n - 1)
  {
    hide Field;
  }

  /** Pixels `col` up to `end` of a row all start in word `buf`. */
  ghost predicate InWord(lcd: LcdDevice, row: int, col: int, end: int, buf: int) {
    forall c :: col <= c < end ==> 32 * buf <= PixelBit(lcd, row, c) < 32 * (buf + 1)
  }

  /** Between a pixel of the word and the word's end every pixel of the row starts in the word. */
  lemma {:induction false} RowInWord(lcd: LcdDevice, row: int, col: int, end: int, buf: int)
    requires lcd.depth > 0 && col <= end && 32 * buf <= PixelBit(lcd, row, col) && PixelBit(lcd, row, end) <= 32 * (buf + 1)
    ensures InWord(lcd, row, col, end, buf)
    decreases end - col
  {
    hide PixelBit;
    if col < end {
      PixelBitNext(lcd, row, col);
      RowInWord(lcd, row, col + 1, end, buf);
      PixelBitsGrow(lcd, row, col, end);
    }
  }

  lemma {:induction false} PixelBitsGrow(lcd: LcdDevice, row: int, col: int, end: int)
    requires lcd.depth > 0 && col < end
    ensures PixelBit(lcd, row, col) < PixelBit(lcd, row, end)
    decreases end - col
  {
    hide PixelBit;
    PixelBitNext(lcd, row, col);
    if col + 1 < end {
      PixelBitsGrow(lcd, row, col + 1, end);
    }
  }

  /** The bit loop: at most `n` pixels of byte `i` of word `buf`, from bit `exb` on. */
  method UnpackByte(lcd: LcdDevice, dma: seq<u32>, bigHost: bool, buf: nat, i: nat, exb: nat, n: nat,
                    ghost row: int, ghost col: int)
    returns (px: seq<nat>)
    requires lcd.lookup.Some? && Depth(lcd.depth) && lcd.depth < 16 && 0 < n
    requires buf < |dma| && AtPixel(i, exb, lcd.depth) && PixelBit(lcd, row, col) == 32 * buf + 8 * i + exb
    ensures 0 < |px| <= n && (|px| < n ==> PixelBit(lcd, row, col + |px|) == 32 * buf + 8 * (i + 1))
    ensures PixelBit(lcd, row, col + |px|) <= 32 * buf + 8 * (i + 1)
    ensures px + Line(lcd, dma, bigHost, 32 * buf + 8 * (i + 1), n - |px|)
         == Line(lcd, dma, bigHost, 32 * buf + 8 * i + exb, n)
  {
    hide Field, Line, PixelBit, LoadedBlock, HostByte, Bits;
    px := [];
    var right := lcd.rightToLeft != 0;
    var color := HostByte(LoadedBlock(dma[buf], lcd, bigHost), bigHost, if right then 3 - i else i);
    var k := exb;
    ghost var p := 32 * buf + 8 * i + exb;
    while k < 8 && |px| < n
      invariant k <= 8 && |px| <= n && Aligned(k, lcd.depth) && (px == [] ==> k < 8)
      invariant p == 32 * buf + 8 * i + k == PixelBit(lcd, row, col + |px|)
      invariant px + Line(lcd, dma, bigHost, p, n - |px|) == Line(lcd, dma, bigHost, 32 * buf + 8 * i + exb, n)
    {
      var c := if right then Bits(color, k, lcd.depth) else Bits(color, 8 - (k + lcd.depth), lcd.depth);
      SubByteField(lcd, dma, bigHost, buf, i, k);
      LineStep(lcd, dma, bigHost, px, c, p, n - |px|);
      PixelBitNext(lcd, row, col + |px|);
      px := px + [lcd.lookup.value(c)];
      k, p := k + lcd.depth, p + lcd.depth;
    }
    if k < 8 {
      LineEnd(lcd, dma, bigHost, p, 32 * buf + 8 * (i + 1));
    }
  }

  lemma LineEnd(lcd: LcdDevice, dma: seq<u32>, bigHost: bool, p: int, q: int)
    requires Depth(lcd.depth) && lcd.lookup.Some?
    ensures Line(lcd, dma, bigHost, p, 0) == Line(lcd, dma, bigHost, q, 0) == []
  {
  }

  /** The byte loop: at most `n` pixels of word `buf`, from bit `exb` of byte `exw` on. */
  method UnpackWord(lcd: LcdDevice, dma: seq<u32>, bigHost: bool, buf: nat, exw: nat, exb: nat, n: nat,
                    ghost row: int, ghost col: int)
    returns (px: seq<nat>)
    requires lcd.lookup.Some? && Depth(lcd.depth) && 0 < n
    requires buf < |dma| && AtPixel(exw, exb, lcd.depth) && PixelBit(lcd, row, col) == 32 * buf + 8 * exw + exb
    ensures 0 < |px| <= n && (|px| < n ==> PixelBit(lcd, row, col + |px|) == 32 * (buf + 1))
    ensures PixelBit(lcd, row, col + |px|) <= 32 * (buf + 1)
    ensures px + Line(lcd, dma, bigHost, 32 * (buf + 1), n - |px|)
         == Line(lcd, dma, bigHost, 32 * buf + 8 * exw + exb, n)
  {
    hide Field, Line, PixelBit, LoadedBlock, HostHalf;
    px := [];
    var right := lcd.rightToLeft != 0;
    var block := LoadedBlock(dma[buf], lcd, bigHost);
    var i, k := exw, exb;
    ghost var p := 32 * buf + 8 * exw + exb;
    while i < 4 && |px| < n
      invariant |px| <= n && (px == [] ==> i < 4)
      invariant if i == 4 then k == 0 else AtPixel(i, k, lcd.depth)
      invariant |px| < n ==> p == 32 * buf + 8 * i + k == PixelBit(lcd, row, col + |px|)
      invariant PixelBit(lcd, row, col + |px|) <= 32 * (buf + 1)
      invariant px + Line(lcd, dma, bigHost, p, n - |px|) == Line(lcd, dma, bigHost, 32 * buf + 8 * exw + exb, n)
    {
      if lcd.depth < 16 {
        var more := UnpackByte(lcd, dma, bigHost, buf, i, k, n - |px|, row, col + |px|);
        assert px + Line(lcd, dma, bigHost, p, n - |px|)
            == px + more + Line(lcd, dma, bigHost, 32 * buf + 8 * (i + 1), n - |px + more|);
        px := px + more;
        i, k, p := i + 1, 0, 32 * buf + 8 * (i + 1);
      } else if lcd.depth == 16 {
        var color := HostHalf(block, bigHost, if right == (i == 0) then 1 else 0);
        HalfField(lcd, dma, bigHost, buf, i);
        LineStep(lcd, dma, bigHost, px, color, p, n - |px|);
        PixelBitNext(lcd, row, col + |px|);
        px := px + [lcd.lookup.value(color)];
        i, p := i + 2, p + 16;
      } else {
        var color := block;
        WordField(lcd, dma, bigHost, buf);
        LineStep(lcd, dma, bigHost, px, color, p, n - |px|);
        PixelBitNext(lcd, row, col + |px|);
        px := px + [lcd.lookup.value(color)];
        p := p + 32;
        break;
      }
    }
    if |px| == n {
      LineEnd(lcd, dma, bigHost, p, 32 * (buf + 1));
    }
  }

  /** The words of all requested pixels before (dy, dx) in reading order have been read. */
  ghost predicate Reached(lcd: LcdDevice, x: int, y: int, w: int, dy: int, dx: int, touched: seq<int>) {
    forall row, col :: y <= row && x <= col < x + w && (row < dy || (row == dy && col < dx)) ==>
      PixelBit(lcd, row, col) / 32 in touched
  }

  lemma ReachedMore(lcd: LcdDevice, x: int, y: int, w: int, dy: int, dx: int, end: int, touched: seq<int>, buf: int)
    requires Reached(lcd, x, y, w, dy, dx, touched) && InWord(lcd, dy, dx, end, buf)
    ensures Reached(lcd, x, y, w, dy, end, touched + [buf])
  {
    hide PixelBit;
    var more := touched + [buf];
    assert more[|touched|] == buf;
    forall row, col | y <= row && x <= col < x + w && (row < dy || (row == dy && col < end))
      ensures PixelBit(lcd, row, col) / 32 in more
    {
      if row == dy && dx <= col {
        assert PixelBit(lcd, row, col) / 32 == buf;
      }
    }
  }

  lemma ReachedRow(lcd: LcdDevice, x: int, y: int, w: int, dy: int, touched: seq<int>)
    requires Reached(lcd, x, y, w, dy, x + w, touched)
    ensures Reached(lcd, x, y, w, dy + 1, x, touched)
  {
    hide PixelBit;
  }

  lemma Requested(lcd: LcdDevice, x: int, y: int, w: int, h: int, row: int, col: int, buf: int, r: int)
    requires y <= row < y + h && x <= col < x + w && PixelBit(lcd, row, col) == 32 * buf + r && 0 <= r < 32
    ensures HoldsRequested(lcd, x, y, w, h, buf)
  {
    hide PixelBit;
    assert PixelBit(lcd, row, col) / 32 == buf;
  }

  lemma ReachedNone(lcd: LcdDevice, x: int, y: int, w: int)
    ensures Reached(lcd, x, y, w, y, x, [])
  {
  }

  lemma ReachedAll(lcd: LcdDevice, x: int, y: int, w: int, h: int, touched: seq<int>)
    requires Reached(lcd, x, y, w, y + h, x, touched)
    ensures forall a :: HoldsRequested(lcd, x, y, w, h, a) ==> a in touched
  {
    hide PixelBit;
    forall a | HoldsRequested(lcd, x, y, w, h, a)
      ensures a in touched
    {
      var row, col :| y <= row < y + h && x <= col < x + w && PixelBit(lcd, row, col) / 32 == a;
    }
  }

  /** Byte `j` of a word, from the lowest. */
  function WordByte(w: u32, j: nat): nat
    requires j < 4
  {
    if j == 0 then w % 0x100
    else if j == 1 then w / 0x100 % 0x100
    else if j == 2 then w / 0x1_0000 % 0x100
    else w / 0x100_0000
  }

  /** Byte `j` of a frame-buffer word as the host's memory holds it once the word swap is done: a little-endian host
      swaps when the flag is 1, a big-endian one when it is 0. */
  function MemoryByte(lcd: LcdDevice, word: u32, bigHost: bool, j: nat): nat
    requires j < 4
  {
    WordByte(word, if (if bigHost then lcd.swapWord == 0 else lcd.swapWord != 1) then j else 3 - j)
  }

  /** The colour that the frame buffer shows at bit `k` of byte `i` of a word. */
  function Shown(lcd: LcdDevice, word: u32, bigHost: bool, i: nat, k: nat): nat
    requires i < 4 && k < 8
  {
    var left := lcd.rightToLeft == 0;
    if lcd.depth == 32 then
      var b0, b1 := MemoryByte(lcd, word, bigHost, 0), MemoryByte(lcd, word, bigHost, 1);
      var b2, b3 := MemoryByte(lcd, word, bigHost, 2), MemoryByte(lcd, word, bigHost, 3);
      if bigHost then 0x100_0000 * b0 + 0x1_0000 * b1 + 0x100 * b2 + b3
      else b0 + 0x100 * b1 + 0x1_0000 * b2 + 0x100_0000 * b3
    else if lcd.depth == 16 then
      var h := if left == (i == 0) then 0 else 2;
      var first, second := MemoryByte(lcd, word, bigHost, h), MemoryByte(lcd, word, bigHost, h + 1);
      if bigHost then 0x100 * first + second else first + 0x100 * second
    else
      var shift := if left then 8 - k - lcd.depth else k;
      if shift < 0 || lcd.depth < 0 then 0
      else MemoryByte(lcd, word, bigHost, if left then i else 3 - i) / Pow2(shift) % Pow2(lcd.depth)
  }

  lemma WordByteIs(w: u32, j: nat)
    requires j < 4
    ensures Bits(w, 8 * j, 8) == WordByte(w, j)
  {
    ByteOf(w, j);
    hide Bits;
    if j == 3 {
      assert w / 0x100_0000 < 0x100;
    }
  }

  lemma HalfOfBytes(w: u32)
    ensures Bits(w, 0, 16) == WordByte(w, 0) + 0x100 * WordByte(w, 1)
    ensures Bits(w, 16, 16) == WordByte(w, 2) + 0x100 * WordByte(w, 3)
  {
    HalvesOf(w);
    hide Bits;
    var q, r := w / 0x1_0000, w % 0x1_0000;
    var a, b := r / 0x100, r % 0x100;
    DivUnique(w, 0x100, 0x100 * q + a, b);
    DivUnique(0x100 * q + a, 0x100, q, a);
    DivDiv(w, 0x1_0000, 0x100);
    assert q == q % 0x100 + 0x100 * (q / 0x100);
  }

  lemma WordOfBytes(w: u32)
    ensures w == WordByte(w, 0) + 0x100 * WordByte(w, 1) + 0x1_0000 * WordByte(w, 2) + 0x100_0000 * WordByte(w, 3)
  {
    DivDiv(w, 0x100, 0x100);
    DivDiv(w, 0x1_0000, 0x100);
    var q1, q2, q3 := w / 0x100, w / 0x1_0000, w / 0x100_0000;
    assert w == w % 0x100 + 0x100 * q1 && q1 == q1 % 0x100 + 0x100 * q2 && q2 == q2 % 0x100 + 0x100 * q3;
  }

  lemma HostByteIs(lcd: LcdDevice, word: u32, bigHost: bool, j: nat)
    requires j < 4
    ensures HostByte(LoadedBlock(word, lcd, bigHost), bigHost, j) == MemoryByte(lcd, word, bigHost, j)
  {
    hide Bits, Swap, WordByte;
    var lane := if bigHost then 3 - j else j;
    WordByteIs(word, lane);
    WordByteIs(word, 3 - lane);
    SwapReversesBytes(word, lane);
  }

  lemma SubByteShown(lcd: LcdDevice, dma: seq<u32>, bigHost: bool, buf: nat, i: nat, k: nat)
    requires Depth(lcd.depth) && lcd.depth < 16 && buf < |dma| && AtPixel(i, k, lcd.depth)
    ensures Field(lcd, dma, bigHost, 32 * buf + 8 * i + k) == Shown(lcd, dma[buf], bigHost, i, k)
  {
    hide LoadedBlock, HostByte, MemoryByte, Field;
    SlotInByte(lcd.depth, k);
    SubByteField(lcd, dma, bigHost, buf, i, k);
    HostByteIs(lcd, dma[buf], bigHost, if lcd.rightToLeft != 0 then 3 - i else i);
  }

  lemma HalfShown(lcd: LcdDevice, dma: seq<u32>, bigHost: bool, buf: nat, i: nat)
    requires lcd.depth == 16 && buf < |dma| && (i == 0 || i == 2)
    ensures Field(lcd, dma, bigHost, 32 * buf + 8 * i) == Shown(lcd, dma[buf], bigHost, i, 0)
  {
    HalfField(lcd, dma, bigHost, buf, i);
    HalfOfBytes(LoadedBlock(dma[buf], lcd, bigHost));
    AllHostBytes(lcd, dma[buf], bigHost);
    hide Field, Bits, LoadedBlock, MemoryByte, WordByte;
  }

  lemma AllHostBytes(lcd: LcdDevice, word: u32, bigHost: bool)
    ensures forall j :: 0 <= j < 4 ==>
      WordByte(LoadedBlock(word, lcd, bigHost), if bigHost then 3 - j else j) == MemoryByte(lcd, word, bigHost, j)
  {
    hide LoadedBlock, MemoryByte, WordByte, Bits;
    forall j | 0 <= j < 4
      ensures WordByte(LoadedBlock(word, lcd, bigHost), if bigHost then 3 - j else j) == MemoryByte(lcd, word, bigHost, j)
    {
      HostByteIs(lcd, word, bigHost, j);
      WordByteIs(LoadedBlock(word, lcd, bigHost), if bigHost then 3 - j else j);
    }
  }

  lemma WordShown(lcd: LcdDevice, dma: seq<u32>, bigHost: bool, buf: nat)
    requires lcd.depth == 32 && buf < |dma|
    ensures Field(lcd, dma, bigHost, 32 * buf) == Shown(lcd, dma[buf], bigHost, 0, 0)
  {
    WordField(lcd, dma, bigHost, buf);
    WordOfBytes(LoadedBlock(dma[buf], lcd, bigHost));
    AllHostBytes(lcd, dma[buf], bigHost);
    hide Field, LoadedBlock, MemoryByte, WordByte;
  }

  /** What the converter computes for a pixel is what the bytes of its frame-buffer word show. */
  lemma FieldShown(lcd: LcdDevice, dma: seq<u32>, bigHost: bool, p: nat)
    requires Depth(lcd.depth) && Aligned(p, lcd.depth) && p / 32 < |dma|
    ensures Field(lcd, dma, bigHost, p) == Shown(lcd, dma[p / 32], bigHost, p % 32 / 8, p % 8)
  {
    AlignedAtPixel(p, lcd.depth);
    hide Field, Shown, Aligned;
    if lcd.depth < 16 {
      SubByteShown(lcd, dma, bigHost, p / 32, p % 32 / 8, p % 8);
    } else if lcd.depth == 16 {
      HalfShown(lcd, dma, bigHost, p / 32, p % 32 / 8);
    } else {
      WordShown(lcd, dma, bigHost, p / 32);
    }
  }

  lemma ColourShown(lcd: LcdDevice, dma: seq<u32>, bigHost: bool, x: int, y: int, w: int, h: int, j: nat)
    requires Accepts(lcd, x, y, w, h) && Backed(lcd, dma, x, y, w, h) && j < w * h
    ensures var p := PixelBit(lcd, y + j / w, x + j % w);
      0 <= p / 32 < |dma| && Field(lcd, dma, bigHost, p) == Shown(lcd, dma[p / 32], bigHost, p % 32 / 8, p % 8)
  {
    hide Field, Shown, PixelBit, Aligned;
    InRectangle(w, h, j);
    PixelBitAligned(lcd, y + j / w, x + j % w);
    FieldShown(lcd, dma, bigHost, PixelBit(lcd, y + j / w, x + j % w));
  }

  lemma InRectangle(w: int, h: int, j: nat)
    requires 0 < w && j < w * h
    ensures 0 <= j / w < h && 0 <= j % w < w
  {
    assert j == w * (j / w) + j % w;
    Grows(w, h, j / w);
  }

  lemma Grows(w: int, a: int, b: int)
    requires 0 < w
    ensures a <= b ==> w * a <= w * b
  {
  }

  /** `colour` is the looked-up colour of the pixel in row `row` and column `col`, which starts at bit `p` of the frame
      buffer. */
  ghost predicate PaintsPixel(lcd: LcdDevice, dma: seq<u32>, bigHost: bool, row: int, col: int, colour: nat)
    requires lcd.lookup.Some?
  {
    var p := ((lcd.width + lcd.lineOffset) * row + col) * lcd.depth;
    && 0 <= p / 32 < |dma|
    && colour == lcd.lookup.value(Shown(lcd, dma[p / 32], bigHost, p % 32 / 8, p % 8))
  }

  /** `calls` are the colours of the rectangle's pixels in reading order. */
  ghost predicate Paints(lcd: LcdDevice, dma: seq<u32>, bigHost: bool, x: int, y: int, w: int, h: int, calls: seq<nat>)
    requires lcd.lookup.Some? && 0 < w
  {
    |calls| == w * h && forall j :: 0 <= j < w * h ==> PaintsPixel(lcd, dma, bigHost, y + j / w, x + j % w, calls[j])
  }

  lemma PicturePaints(lcd: LcdDevice, dma: seq<u32>, bigHost: bool, x: int, y: int, w: int, h: int)
    requires Accepts(lcd, x, y, w, h) && lcd.lookup.Some? && Backed(lcd, dma, x, y, w, h)
    ensures Paints(lcd, dma, bigHost, x, y, w, h, Picture(lcd, dma, bigHost, x, y, w, h))
  {
    hide Field, Picture, Backed, PaintsPixel;
    PictureLength(lcd, dma, bigHost, x, y, w, h);
    forall j | 0 <= j < w * h
      ensures PaintsPixel(lcd, dma, bigHost, y + j / w, x + j % w, Picture(lcd, dma, bigHost, x, y, w, h)[j])
    {
      hide Accepts;
      PixelPaints(lcd, dma, bigHost, x, y, w, h, j);
    }
  }

  lemma PixelPaints(lcd: LcdDevice, dma: seq<u32>, bigHost: bool, x: int, y: int, w: int, h: int, j: nat)
    requires Accepts(lcd, x, y, w, h) && lcd.lookup.Some? && Backed(lcd, dma, x, y, w, h) && j < w * h
    ensures |Picture(lcd, dma, bigHost, x, y, w, h)| == w * h
    ensures PaintsPixel(lcd, dma, bigHost, y + j / w, x + j % w, Picture(lcd, dma, bigHost, x, y, w, h)[j])
  {
    hide Field, Shown, Picture, PixelBit, Backed, Accepts;
    PictureAt(lcd, dma, bigHost, x, y, w, h, j);
    ColourShown(lcd, dma, bigHost, x, y, w, h, j);
    PixelBitIs(lcd, y + j / w, x + j % w);
  }

  /** skyeye_convert_color_from_lcd_dma; `touched` lists the frame-buffer words read. */
  method Convert(lcd: LcdDevice, dma: Option<seq<u32>>, bigHost: bool,
                 x: int, y: int, w: int, h: int, hasFunc: bool)
    returns (calls: seq<nat>, touched: seq<int>)
    requires Runs(lcd, dma, x, y, w, h, hasFunc) ==> Backed(lcd, dma.value, x, y, w, h)
    ensures !Runs(lcd, dma, x, y, w, h, hasFunc) ==> calls == [] && touched == []
    ensures Runs(lcd, dma, x, y, w, h, hasFunc) ==>
      && Paints(lcd, dma.value, bigHost, x, y, w, h, calls)
      && (forall a :: a in touched <==> HoldsRequested(lcd, x, y, w, h, a))
  {
    hide Field, Paints, Aligned, AtPixel, PixelBit, Line, Reached, InWord, HoldsRequested;
    calls, touched := [], [];
    if dma.None? || lcd.lookup.None? || !hasFunc { return; }
    if !(lcd.depth == 1 || lcd.depth == 2 || lcd.depth == 4 || lcd.depth == 8 || lcd.depth == 16 || lcd.depth == 32) {
      return;
    }
    if lcd.width <= 0 || x < 0 || w <= 0 || x + w > lcd.width { return; }
    if lcd.height <= 0 || y < 0 || h <= 0 || y + h > lcd.height { return; }

    var lineWidth := lcd.width + lcd.lineOffset;
    var dy := y;
    ReachedNone(lcd, x, y, w);
    while dy < y + h
      invariant y <= dy <= y + h
      invariant calls == Picture(lcd, dma.value, bigHost, x, y, w, dy - y)
      invariant forall a :: a in touched ==> HoldsRequested(lcd, x, y, w, h, a)
      invariant Reached(lcd, x, y, w, dy, x, touched)
    {
      var start := (lineWidth * dy + x) * lcd.depth;
      PixelBitAligned(lcd, dy, x);
      PixelBitIs(lcd, dy, x);
      AlignedAtPixel(start, lcd.depth);
      var exw, exb, buf := start % 32 / 8, start % 8, start / 32;
      var dx := x;
      while dx < x + w
        invariant x <= dx <= x + w && 0 <= buf
        invariant calls + Line(lcd, dma.value, bigHost, 32 * buf + 8 * exw + exb, x + w - dx)
               == Picture(lcd, dma.value, bigHost, x, y, w, dy - y + 1)
        invariant forall a :: a in touched ==> HoldsRequested(lcd, x, y, w, h, a)
        invariant Reached(lcd, x, y, w, dy, dx, touched)
        invariant AtPixel(exw, exb, lcd.depth) && 0 <= exw < 4 && 0 <= exb < 8
        invariant dx < x + w ==> PixelBit(lcd, dy, dx) == 32 * buf + 8 * exw + exb
      {
        Requested(lcd, x, y, w, h, dy, dx, buf, 8 * exw + exb);
        var px := UnpackWord(lcd, dma.value, bigHost, buf, exw, exb, x + w - dx, dy, dx);
        FirstAtPixel(lcd.depth);
        RowInWord(lcd, dy, dx, dx + |px|, buf);
        ReachedMore(lcd, x, y, w, dy, dx, dx + |px|, touched, buf);
        touched := touched + [buf];
        calls, dx := calls + px, dx + |px|;
        exw, exb, buf := 0, 0, buf + 1;
      }
      LineEnd(lcd, dma.value, bigHost, 32 * buf + 8 * exw + exb, 0);
      ReachedRow(lcd, x, y, w, dy, touched);
      dy := dy + 1;
    }
    PicturePaints(lcd, dma.value, bigHost, x, y, w, h);
    ReachedAll(lcd, x, y, w, h, touched);
  }

  /** Every bit of a word belongs to exactly one pixel, whatever the order of the pixels. */
  lemma PixelsTileWord(depth: int, right: bool, bigHost: bool, bit: nat)
    requires Depth(depth) && bit < 32
    ensures exists i, k :: AtPixel(i, k, depth) && Covers(depth, right, bigHost, i, k, bit)
    ensures forall i, k, i', k' |
              && AtPixel(i, k, depth) && Covers(depth, right, bigHost, i, k, bit)
              && AtPixel(i', k', depth) && Covers(depth, right, bigHost, i', k', bit) :: i == i' && k == k'
  {
    hide AtPixel, Covers;
    var i, k := PixelOfBit(depth, right, bigHost, bit);
    forall i, k, i', k' |
        && AtPixel(i, k, depth) && Covers(depth, right, bigHost, i, k, bit)
        && AtPixel(i', k', depth) && Covers(depth, right, bigHost, i', k', bit)
      ensures i == i' && k == k'
    {
      OnePixelPerBit(depth, right, bigHost, i, k, i', k', bit);
    }
  }

  lemma PixelOfBit(depth: int, right: bool, bigHost: bool, bit: nat) returns (i: int, k: int)
    requires Depth(depth) && bit < 32
    ensures AtPixel(i, k, depth) && Covers(depth, right, bigHost, i, k, bit)
  {
    var lane, b := bit / 8, bit % 8;
    var fromTop := right != bigHost;
    if depth < 16 {
      i := if fromTop then 3 - lane else lane;
      var low := if depth == 1 then b else if depth == 2 then b / 2 * 2 else if depth == 4 then b / 4 * 4 else 0;
      k := if right then low else 8 - low - depth;
    } else {
      i, k := if depth == 16 && (fromTop == (bit < 16)) then 2 else 0, 0;
    }
  }

  lemma OnePixelPerBit(depth: int, right: bool, bigHost: bool, i: int, k: int, i': int, k': int, bit: nat)
    requires Depth(depth) && AtPixel(i, k, depth) && AtPixel(i', k', depth)
    requires Covers(depth, right, bigHost, i, k, bit) && Covers(depth, right, bigHost, i', k', bit)
    ensures i == i' && k == k'
  {
    if depth < 16 {
      SlotInByte(depth, k);
      SlotInByte(depth, k');
      hide Aligned;
      var s, s' := if right then k else 8 - k - depth, if right then k' else 8 - k' - depth;
      var lane, lane' := if right != bigHost then 3 - i else i, if right != bigHost then 3 - i' else i';
      assert 8 * lane + s <= bit < 8 * lane + s + depth;
      assert 8 * lane' + s' <= bit < 8 * lane' + s' + depth;
      assert lane == lane';
      SameSlot(depth, s, s');
    }
  }

  lemma SlotInByte(d: int, k: int)
    requires Depth(d) && d < 16 && Aligned(k, d) && 0 <= k < 8
    ensures k + d <= 8 && Aligned(8 - k - d, d)
  {
    if d == 1 {
    } else if d == 2 {
    } else if d == 4 {
    }
  }

  /** An aligned bit is a whole number of pixels from the start. */
  lemma WholePixels(d: int, s: int) returns (q: int)
    requires Depth(d) && d < 16 && Aligned(s, d)
    ensures (d == 1 ==> s == q) && (d == 2 ==> s == 2 * q) && (d == 4 ==> s == 4 * q) && (d == 8 ==> s == 8 * q)
  {
    if d == 1 {
      q := s;
    } else if d == 2 {
      q := s / 2;
    } else if d == 4 {
      q := s / 4;
    } else {
      q := s / 8;
    }
  }

  lemma SameSlot(d: int, s: int, s': int)
    requires Depth(d) && d < 16 && Aligned(s, d) && Aligned(s', d) && -d < s - s' < d
    ensures s == s'
  {
    hide Aligned;
    var q := WholePixels(d, s);
    var q' := WholePixels(d, s');
    if d == 1 {
    } else if d == 2 {
      assert -1 < q - q' < 1;
    } else if d == 4 {
      assert -1 < q - q' < 1;
    } else {
      assert -1 < q - q' < 1;
    }
  }

  ghost predicate Covers(depth: int, right: bool, bigHost: bool, i: int, k: int, bit: nat)
    requires Depth(depth)
  {
    0 <= i < 4 && 0 <= k < 8 &&
    FieldShift(depth, right, bigHost, i, k) <= bit < FieldShift(depth, right, bigHost, i, k) + depth
  }

  /** Right to left is the order of left to right turned round inside each word. */
  lemma RightToLeftReverses(depth: int, bigHost: bool, i: int, k: int, i': int, k': int)
    requires Depth(depth) && AtPixel(i, k, depth) && AtPixel(i', k', depth)
    requires 8 * i' + k' == 32 - depth - (8 * i + k)
    ensures FieldShift(depth, true, bigHost, i, k) == FieldShift(depth, false, bigHost, i', k')
  {
    if depth < 16 {
      assert k + depth <= 8 && i' == 3 - i;
    }
  }

  lemma SwapReversesBytes(w: u32, i: nat)
    requires i < 4
    ensures Bits(Swap(w), 8 * i, 8) == Bits(w, 8 * (3 - i), 8)
  {
    hide Bits;
    ByteOf(Swap(w), i);
    assert Pow2(8) == 0x100;
    BytesOfSum(Bits(w, 0, 8), Bits(w, 8, 8), Bits(w, 16, 8), Bits(w, 24, 8));
  }

  lemma BytesOfSum(b0: nat, b1: nat, b2: nat, b3: nat)
    requires b0 < 0x100 && b1 < 0x100 && b2 < 0x100 && b3 < 0x100
    ensures var w := b0 * 0x100_0000 + b1 * 0x1_0000 + b2 * 0x100 + b3;
      w % 0x100 == b3 && w / 0x100 % 0x100 == b2 && w / 0x1_0000 % 0x100 == b1 && w / 0x100_0000 % 0x100 == b0
  {
    var w := b0 * 0x100_0000 + b1 * 0x1_0000 + b2 * 0x100 + b3;
    assert w / 0x100_0000 == b0;
    assert w / 0x1_0000 == b0 * 0x100 + b1;
    assert w / 0x100 == b0 * 0x1_0000 + b1 * 0x100 + b2;
  }

  lemma ByteOf(w: nat, i: nat)
    requires i < 4
    ensures Bits(w, 8 * i, 8)
         == (if i == 0 then w else if i == 1 then w / 0x100 else if i == 2 then w / 0x1_0000 else w / 0x100_0000) % 0x100
  {
    Pow2Values();
    assert w / 1 == w;
  }

  /** A big-endian host shows the same picture exactly for pixels of less than a halfword. */
  lemma HostsAgree(lcd: LcdDevice)
    requires Depth(lcd.depth) && (lcd.swapWord == 0 || lcd.swapWord == 1)
    ensures lcd.depth < 16 <==>
      forall dma, p :: 0 <= p && Aligned(p, lcd.depth) ==> Field(lcd, dma, false, p) == Field(lcd, dma, true, p)
  {
    if lcd.depth < 16 {
      forall dma, p | 0 <= p && Aligned(p, lcd.depth)
        ensures Field(lcd, dma, false, p) == Field(lcd, dma, true, p)
      {
        HostsAgreeAt(lcd, dma, p);
      }
    } else {
      HostsDiffer(lcd);
    }
  }

  lemma HostsAgreeAt(lcd: LcdDevice, dma: seq<u32>, p: nat)
    requires Depth(lcd.depth) && lcd.depth < 16 && (lcd.swapWord == 0 || lcd.swapWord == 1) && Aligned(p, lcd.depth)
    ensures Field(lcd, dma, false, p) == Field(lcd, dma, true, p)
  {
    hide Bits, Swap;
    AlignedAtPixel(p, lcd.depth);
    var buf, i, k := p / 32, p % 32 / 8, p % 8;
    if buf < |dma| {
      SubByteField(lcd, dma, false, buf, i, k);
      SubByteField(lcd, dma, true, buf, i, k);
      SwapReversesBytes(dma[buf], i);
      SwapReversesBytes(dma[buf], 3 - i);
    }
  }

  lemma HalvesOf(w: u32)
    ensures Bits(w, 0, 16) == w % 0x1_0000 && Bits(w, 16, 16) == w / 0x1_0000
  {
    Pow2Values();
    assert w / 1 == w;
  }

  lemma SwapOne()
    ensures Swap(1) == 0x100_0000
  {
    ByteOf(1, 0);
    ByteOf(1, 1);
    ByteOf(1, 2);
    ByteOf(1, 3);
  }

  lemma HostsDiffer(lcd: LcdDevice)
    requires Depth(lcd.depth) && lcd.depth >= 16 && (lcd.swapWord == 0 || lcd.swapWord == 1)
    ensures exists dma, p :: 0 <= p && Aligned(p, lcd.depth) && Field(lcd, dma, false, p) != Field(lcd, dma, true, p)
  {
    var dma: seq<u32> := [1];
    hide Field, Swap, Bits;
    SwapOne();
    HalvesOf(1);
    HalvesOf(0x100_0000);
    if lcd.depth == 32 {
      WordField(lcd, dma, false, 0);
      WordField(lcd, dma, true, 0);
      assert Field(lcd, dma, false, 0) != Field(lcd, dma, true, 0);
    } else {
      var i := if (lcd.rightToLeft != 0) == (lcd.swapWord == 0) then 2 else 0;
      HalfField(lcd, dma, false, 0, i);
      HalfField(lcd, dma, true, 0, i);
      assert Field(lcd, dma, false, 8 * i) != Field(lcd, dma, true, 8 * i);
    }
  }
}
