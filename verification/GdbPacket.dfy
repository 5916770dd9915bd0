/** The GDB remote stub's packets: framing with a checksum, chunked input, and the hex codecs. */
module GdbPacket {
  import opened BitFields
  import opened Common

  const DOLLAR: byte := 0x24
  const HASH: byte := 0x23
  const PLUS: byte := 0x2b
  const MINUS: byte := 0x2d
  const COMMA: byte := 0x2c
  const COLON: byte := 0x3a

  // ---------- Hex digits ----------

  function ToHex(nib: nat): (c: byte)
    requires nib < 16
  {
    if nib < 10 then 0x30 + nib else 0x61 + nib - 10
  }

  /** fromhex; the source prints an error and returns nothing for anything else. */
  function FromHex(a: nat): (d: Option<nat>)
    ensures d.Some? ==> d.value < 16
  {
    if 0x30 <= a <= 0x39 then Some(a - 0x30)
    else if 0x61 <= a <= 0x66 then Some(a - 0x61 + 10)
    else if 0x41 <= a <= 0x46 then Some(a - 0x41 + 10)
    else None
  }

  lemma HexDigit(nib: nat)
    requires nib < 16
    ensures FromHex(ToHex(nib)) == Some(nib) && ToHex(nib) < 0x80 && ToHex(nib) != HASH && ToHex(nib) != DOLLAR
  {
  }

  // ---------- Frames ----------

  /** The bytes of a C string: those before the first 0. */
  function CString(buf: seq<byte>): (s: seq<byte>)
    ensures 0 !in s && s <= buf && (s < buf ==> buf[|s|] == 0)
  {
    if buf == [] || buf[0] == 0 then [] else [buf[0]] + CString(buf[1..])
  }

  function Sum(p: seq<byte>): byte {
    if p == [] then 0 else (Sum(p[..|p| - 1]) + p[|p| - 1]) % 0x100
  }

  /** The sum of a payload's bytes. */
  function Total(p: seq<byte>): nat {
    if p == [] then 0 else Total(p[..|p| - 1]) + p[|p| - 1]
  }

  /** The check value is that sum, modulo 256. */
  lemma {:induction false} SumIsTotal(p: seq<byte>)
    ensures Sum(p) == Total(p) % 0x100
    decreases |p|
  {
    if p != [] {
      SumIsTotal(p[..|p| - 1]);
      ModAdd(Total(p[..|p| - 1]), p[|p| - 1]);
    }
  }

  lemma ModAdd(t: nat, x: nat)
    ensures (t % 0x100 + x) % 0x100 == (t + x) % 0x100
  {
    var u := t % 0x100 + x;
    assert t + x == 0x100 * (t / 0x100 + u / 0x100) + u % 0x100;
    DivUnique(t + x, 0x100, t / 0x100 + u / 0x100, u % 0x100);
  }

  /** What putpkt sends for a payload. */
  function Frame(p: seq<byte>): seq<byte> {
    [DOLLAR] + p + [HASH, ToHex(Sum(p) / 16), ToHex(Sum(p) % 16)]
  }

  function Repeat(s: seq<byte>, n: nat): seq<byte> {
    if n == 0 then [] else Repeat(s, n - 1) + s
  }

  /** The end of the first run of bytes other than `x`, or the length if there is no `x`. */
  function Find(s: seq<byte>, x: byte): (i: nat)
    ensures i <= |s| && x !in s[..i]
    ensures i < |s| ==> s[i] == x
  {
    if s == [] || s[0] == x then 0 else 1 + Find(s[1..], x)
  }

  lemma FindAt(s: seq<byte>, x: byte, i: nat)
    requires i < |s| && s[i] == x && x !in s[..i]
    ensures Find(s, x) == i
  {
    if i > 0 {
      assert s[1..][..i - 1] == s[..i][1..] && s[..i][0] == s[0];
      FindAt(s[1..], x, i - 1);
    }
  }

  lemma FindIn(s: seq<byte>, x: byte)
    requires x in s
    ensures Find(s, x) < |s|
  {
    if s[0] != x {
      assert s == [s[0]] + s[1..];
      FindIn(s[1..], x);
    }
  }

  /** The loop of putpkt that encapsulates the packet. */
  method Encapsulate(p: seq<byte>) returns (buf2: seq<byte>)
    ensures buf2 == Frame(p)
  {
    hide ToHex;
    var csum: nat := 0;
    buf2 := [DOLLAR];
    for i := 0 to |p|
      invariant csum == Sum(p[..i]) && buf2 == [DOLLAR] + p[..i]
    {
      csum := (csum + p[i]) % 0x100;
      buf2 := buf2 + [p[i]];
      assert p[..i + 1][..i] == p[..i];
    }
    assert p[..|p|] == p;
    buf2 := buf2 + [HASH, ToHex(csum / 16), ToHex(csum % 16)];
  }

  /** putpkt: the frame goes out until a '+' comes back; `acks` are the bytes the peer sends, then the line closes. */
  method PutPkt(buf: seq<byte>, acks: seq<byte>) returns (sent: seq<byte>, ok: bool)
    requires |CString(buf)| <= 1995
    ensures ok <==> 0x2b in acks
    ensures var n := Find(acks, PLUS); sent == Repeat(Frame(CString(buf)), n + 1)
  {
    hide Frame, CString;
    var buf2 := Encapsulate(CString(buf));
    sent := [];
    var i := 0;
    while true
      invariant i <= |acks| && PLUS !in acks[..i] && sent == Repeat(Frame(CString(buf)), i)
      decreases |acks| - i
    {
      sent := sent + buf2;
      if i == |acks| {
        assert acks[..i] == acks;
        return sent, false;
      }
      if acks[i] == PLUS {
        FindAt(acks, PLUS, i);
        return sent, true;
      }
      i := i + 1;
    }
  }

  // ---------- Reading packets ----------

  datatype Outcome = Packet(payload: seq<byte>, acks: seq<byte>, rest: seq<byte>)
                   | Closed(acks: seq<byte>)
                   | Undefined

  /** An outcome with `acks` sent before it. */
  function Answer(acks: seq<byte>, o: Outcome): Outcome {
    match o
    case Packet(p, a, r) => Packet(p, acks + a, r)
    case Closed(a) => Closed(acks + a)
    case Undefined => Undefined
  }

  /** What getpkt makes of the characters `s` until the line closes. */
  function Parse(s: seq<byte>): Outcome
    decreases |s|
  {
    var i := Find(s, DOLLAR);
    if i == |s| then Closed([]) else ParseBody(s[i + 1..])
  }

  /** The same, once a '$' has been read. */
  function ParseBody(t: seq<byte>): Outcome
    decreases |t|
  {
    var j := Find(t, HASH);
    if j == |t| then Closed([])
    else if j + 2 >= |t| || FromHex(t[j + 1]).None? || FromHex(t[j + 2]).None? then Undefined
    else if Sum(t[..j]) == 16 * FromHex(t[j + 1]).value + FromHex(t[j + 2]).value then Packet(t[..j], [PLUS], t[j + 3..])
    else Answer([MINUS], Parse(t[j + 3..]))
  }

  function Masked(s: seq<byte>): (m: seq<byte>)
    ensures |m| == |s|
    ensures forall i :: 0 <= i < |s| ==> m[i] == s[i] % 0x80
  {
    seq(|s|, i requires 0 <= i < |s| => s[i] % 0x80)
  }

  predicate Clean(p: seq<byte>) {
    HASH !in p && forall i :: 0 <= i < |p| ==> p[i] < 0x80
  }

  /** Traffic before a packet: bytes without '$', or a frame whose two check digits are wrong. */
  datatype Noise = Junk(bytes: seq<byte>) | Bad(payload: seq<byte>, check1: byte, check2: byte)

  predicate Ignorable(n: Noise) {
    match n
    case Junk(b) => DOLLAR !in b
    case Bad(p, c1, c2) =>
      && HASH !in p && FromHex(c1).Some? && FromHex(c2).Some?
      && Sum(p) != 16 * FromHex(c1).value + FromHex(c2).value
  }

  function BytesOf(n: Noise): seq<byte> {
    match n
    case Junk(b) => b
    case Bad(p, c1, c2) => [DOLLAR] + p + [HASH, c1, c2]
  }

  function NoiseBytes(ns: seq<Noise>): seq<byte> {
    if ns == [] then [] else BytesOf(ns[0]) + NoiseBytes(ns[1..])
  }

  /** One '-' for each bad frame. */
  function Rejections(ns: seq<Noise>): seq<byte> {
    if ns == [] then [] else (if ns[0].Bad? then [MINUS] else []) + Rejections(ns[1..])
  }

  lemma ParseDollar(t: seq<byte>)
    ensures Parse([DOLLAR] + t) == ParseBody(t)
  {
    hide ParseBody;
    FindAt([DOLLAR] + t, DOLLAR, 0);
    assert ([DOLLAR] + t)[1..] == t;
  }

  lemma BodyParsed(p: seq<byte>, c1: byte, c2: byte, rest: seq<byte>)
    requires HASH !in p && FromHex(c1).Some? && FromHex(c2).Some?
    ensures ParseBody(p + [HASH, c1, c2] + rest)
         == if Sum(p) == 16 * FromHex(c1).value + FromHex(c2).value then Packet(p, [PLUS], rest)
            else Answer([MINUS], Parse(rest))
  {
    hide Find, Sum, Answer, Parse, FromHex;
    var t := p + [HASH, c1, c2] + rest;
    assert t[..|p|] == p;
    FindAt(t, HASH, |p|);
    assert t[|p| + 3..] == rest;
  }

  /** A frame at the front of the line is taken or rejected whole. */
  lemma ParseFrame(p: seq<byte>, c1: byte, c2: byte, rest: seq<byte>)
    requires HASH !in p && FromHex(c1).Some? && FromHex(c2).Some?
    ensures Parse([DOLLAR] + p + [HASH, c1, c2] + rest)
         == if Sum(p) == 16 * FromHex(c1).value + FromHex(c2).value then Packet(p, [PLUS], rest)
            else Answer([MINUS], Parse(rest))
  {
    hide ParseBody, Parse, FromHex, Sum, Answer;
    assert [DOLLAR] + p + [HASH, c1, c2] + rest == [DOLLAR] + (p + [HASH, c1, c2] + rest);
    ParseDollar(p + [HASH, c1, c2] + rest);
    BodyParsed(p, c1, c2, rest);
  }

  lemma FindPast(junk: seq<byte>, s: seq<byte>, x: byte)
    requires x !in junk
    ensures Find(junk + s, x) == |junk| + Find(s, x)
    decreases |junk|
  {
    if junk == [] {
      assert junk + s == s;
    } else {
      assert (junk + s)[1..] == junk[1..] + s;
      FindPast(junk[1..], s, x);
    }
  }

  lemma SkipJunk(junk: seq<byte>, s: seq<byte>)
    requires DOLLAR !in junk
    ensures Parse(junk + s) == Parse(s)
  {
    hide Find, Sum, Answer;
    FindPast(junk, s, DOLLAR);
    var i := Find(s, DOLLAR);
    if i < |s| {
      assert (junk + s)[|junk| + i + 1..] == s[i + 1..];
    }
  }

  lemma GoodFrame(p: seq<byte>, tail: seq<byte>)
    requires HASH !in p
    ensures Parse(Frame(p) + tail) == Packet(p, [PLUS], tail)
  {
    hide Parse, Sum;
    HexDigit(Sum(p) / 16);
    HexDigit(Sum(p) % 16);
    ParseFrame(p, ToHex(Sum(p) / 16), ToHex(Sum(p) % 16), tail);
  }

  lemma NoiseSkipped(n: Noise, rest: seq<byte>)
    requires Ignorable(n)
    ensures Parse(BytesOf(n) + rest) == if n.Bad? then Answer([MINUS], Parse(rest)) else Parse(rest)
  {
    hide Parse, Sum, FromHex, Answer;
    match n
    case Junk(b) => SkipJunk(b, rest);
    case Bad(q, c1, c2) => ParseFrame(q, c1, c2, rest);
  }

  /** After any noise a good frame's payload comes back, with one '-' for each bad frame before it and then a '+'. */
  lemma {:induction false} FrameReceived(ns: seq<Noise>, p: seq<byte>, tail: seq<byte>)
    requires (forall i :: 0 <= i < |ns| ==> Ignorable(ns[i])) && HASH !in p
    ensures Parse(NoiseBytes(ns) + Frame(p) + tail) == Packet(p, Rejections(ns) + [PLUS], tail)
    decreases |ns|
  {
    hide Parse, Frame, BytesOf, Ignorable, NoiseBytes, Rejections;
    NoiseNext(ns, Frame(p), tail);
    if ns == [] {
      GoodFrame(p, tail);
    } else {
      FrameReceived(ns[1..], p, tail);
      NoiseSkipped(ns[0], NoiseBytes(ns[1..]) + Frame(p) + tail);
    }
  }

  lemma NoiseNext(ns: seq<Noise>, f: seq<byte>, tail: seq<byte>)
    ensures ns == [] ==> NoiseBytes(ns) + f + tail == f + tail && Rejections(ns) + [PLUS] == [PLUS]
    ensures ns != [] ==>
      && NoiseBytes(ns) + f + tail == BytesOf(ns[0]) + (NoiseBytes(ns[1..]) + f + tail)
      && Rejections(ns) + [PLUS] == (if ns[0].Bad? then [MINUS] else []) + (Rejections(ns[1..]) + [PLUS])
  {
    hide BytesOf;
  }

  lemma MaskedId(s: seq<byte>)
    requires forall i :: 0 <= i < |s| ==> s[i] < 0x80
    ensures Masked(s) == s
  {
  }

  lemma MaskedAdd(a: seq<byte>, b: seq<byte>)
    ensures Masked(a + b) == Masked(a) + Masked(b)
  {
  }

  predicate SevenBit(s: seq<byte>) {
    forall i :: 0 <= i < |s| ==> s[i] < 0x80
  }

  lemma {:induction false} PayloadClean(s: seq<byte>)
    requires SevenBit(s) && Parse(s).Packet?
    ensures Clean(Parse(s).payload)
    decreases |s|
  {
    var t := s[Find(s, DOLLAR) + 1..];
    hide Sum, Find;
    var j := Find(t, HASH);
    if ParseBody(t) == Answer([MINUS], Parse(t[j + 3..])) {
      PayloadClean(t[j + 3..]);
    }
  }

  /** What putpkt frames, getpkt gets back exactly when the payload is 7-bit and without '#'; the first copy is taken. */
  lemma FrameRoundTrip(p: seq<byte>, tail: seq<byte>)
    ensures (var o := Parse(Masked(Frame(p) + tail)); o.Packet? && o.payload == p) <==> Clean(p)
    ensures Clean(p) ==> Parse(Masked(Frame(p) + tail)) == Packet(p, [PLUS], Masked(tail))
  {
    hide Parse, Sum;
    if Clean(p) {
      HexDigit(Sum(p) / 16);
      HexDigit(Sum(p) % 16);
      MaskedId(Frame(p));
      MaskedAdd(Frame(p), tail);
      FrameReceived([], p, Masked(tail));
      assert NoiseBytes([]) + Frame(p) + Masked(tail) == Frame(p) + Masked(tail);
    } else if Parse(Masked(Frame(p) + tail)).Packet? {
      PayloadClean(Masked(Frame(p) + tail));
    }
  }

  /** The bytes of a text. */
  function Ascii(text: string): (s: seq<byte>)
    ensures |s| == |text| && forall i :: 0 <= i < |s| ==> s[i] == text[i] as int % 0x100
  {
    seq(|text|, i requires 0 <= i < |text| => text[i] as int % 0x100)
  }

  lemma OkSum()
    ensures Sum(Ascii("OK")) == 0x9a
  {
    var p := Ascii("OK");
    assert p[..1] == [0x4f] && p[..1][..0] == [];
    assert Sum(p[..1]) == (Sum([]) + 0x4f) % 0x100;
  }

  lemma WireBytes()
    ensures Ascii("$OK#00") == [DOLLAR] + Ascii("OK") + [HASH, 0x30, 0x30]
    ensures Ascii("$OK#9A") == [DOLLAR] + Ascii("OK") + [HASH, 0x39, 0x41]
    ensures Ascii("$OK#9a") == [DOLLAR] + Ascii("OK") + [HASH, 0x39, 0x61]
    ensures HASH !in Ascii("OK") && DOLLAR !in Ascii("+x") && Ascii("-+") == [MINUS] + [PLUS]
  {
  }

  /** On the wire: a payload's frame, and what is made of junk, a frame with a wrong sum and a good one in capitals. */
  lemma OnTheWire()
    ensures Frame(Ascii("OK")) == Ascii("$OK#9a")
    ensures Parse(Ascii("+x") + (Ascii("$OK#00") + (Ascii("$OK#9A") + Ascii("+")))) == Packet(Ascii("OK"), Ascii("-+"), Ascii("+"))
  {
    OkSum();
    WireBytes();
    hide Parse, Sum, Ascii;
    var p, good := Ascii("OK"), Ascii("$OK#9A") + Ascii("+");
    SkipJunk(Ascii("+x"), Ascii("$OK#00") + good);
    ParseFrame(p, 0x30, 0x30, good);
    ParseFrame(p, 0x39, 0x41, Ascii("+"));
  }

  /** The hex digits, written in lower case and read in both. */
  lemma DigitsAre(n: nat, c: byte)
    ensures n < 16 ==> ToHex(n) == "0123456789abcdef"[n] as int
    ensures FromHex(c) == Some(n) <==> n < 16 && (c == "0123456789abcdef"[n] as int || c == "0123456789ABCDEF"[n] as int)
  {
  }

  // ---------- Hex codecs ----------

  function HexEncode(data: seq<byte>): (h: seq<byte>)
    ensures |h| == 2 * |data|
  {
    if data == [] then [] else HexEncode(data[..|data| - 1]) + [ToHex(data[|data| - 1] / 16), ToHex(data[|data| - 1] % 16)]
  }

  predicate HexDigits(s: seq<byte>) {
    forall i :: 0 <= i < |s| ==> FromHex(s[i]).Some?
  }

  /** The byte two hex digits stand for. */
  function Octet(c1: byte, c2: byte): byte
    requires FromHex(c1).Some? && FromHex(c2).Some?
  {
    16 * FromHex(c1).value + FromHex(c2).value
  }

  function HexDecode(h: seq<byte>): (d: seq<byte>)
    requires |h| % 2 == 0 && HexDigits(h)
    ensures |d| == |h| / 2
  {
    if h == [] then []
    else HexDecode(h[..|h| - 2]) + [Octet(h[|h| - 2], h[|h| - 1])]
  }

  /** Encoded data can stand in a packet. */
  lemma {:induction false} EncodedClean(data: seq<byte>)
    ensures Clean(HexEncode(data))
    decreases |data|
  {
    if data != [] {
      EncodedClean(data[..|data| - 1]);
      HexDigit(data[|data| - 1] / 16);
      HexDigit(data[|data| - 1] % 16);
    }
  }

  /** Byte `i` is encoded as two digits, the high one first. */
  lemma {:induction false} EncodedAt(data: seq<byte>, i: nat)
    requires i < |data|
    ensures HexEncode(data)[2 * i] == "0123456789abcdef"[data[i] / 16] as int
    ensures HexEncode(data)[2 * i + 1] == "0123456789abcdef"[data[i] % 16] as int
    decreases |data|
  {
    var n := |data| - 1;
    DigitsAre(data[i] / 16, 0);
    DigitsAre(data[i] % 16, 0);
    hide ToHex;
    if i < n {
      EncodedAt(data[..n], i);
    }
  }

  /** Decoding what was encoded gives it back. */
  lemma {:induction false} HexRoundTrip(data: seq<byte>)
    ensures HexDigits(HexEncode(data)) && HexDecode(HexEncode(data)) == data
    decreases |data|
  {
    if data == [] {
    } else {
      var n := |data| - 1;
      HexRoundTrip(data[..n]);
      hide ToHex, FromHex, HexDigits, HexDecode, Octet;
      OctetOf(data[n]);
      DecodeNext(HexEncode(data[..n]), ToHex(data[n] / 16), ToHex(data[n] % 16));
      assert data == data[..n] + [data[n]];
    }
  }

  lemma OctetOf(x: byte)
    ensures FromHex(ToHex(x / 16)).Some? && FromHex(ToHex(x % 16)).Some? && Octet(ToHex(x / 16), ToHex(x % 16)) == x
  {
    HexDigit(x / 16);
    HexDigit(x % 16);
  }

  lemma DecodeNext(h: seq<byte>, c1: byte, c2: byte)
    requires |h| % 2 == 0 && HexDigits(h) && FromHex(c1).Some? && FromHex(c2).Some?
    ensures HexDigits(h + [c1, c2]) && (|h| + 2) % 2 == 0
    ensures HexDecode(h + [c1, c2]) == HexDecode(h) + [Octet(c1, c2)]
  {
    var g := h + [c1, c2];
    assert g[|g| - 2] == c1 && g[|g| - 1] == c2 && g[..|g| - 2] == h;
    hide FromHex, Octet;
  }

  /** convert_int_to_ascii */
  method ConvertIntToAscii(from: seq<byte>) returns (to: seq<byte>)
    ensures to == HexEncode(from)
  {
    to := [];
    for i := 0 to |from|
      invariant to == HexEncode(from[..i])
    {
      var ch := from[i];
      to := to + [ToHex(ch / 16)];
      to := to + [ToHex(ch % 16)];
      assert from[..i + 1][..i] == from[..i];
    }
    assert from[..|from|] == from;
  }

  /** convert_ascii_to_int, for `n` bytes. */
  method ConvertAsciiToInt(from: seq<byte>, n: nat) returns (to: seq<byte>)
    requires 2 * n <= |from| && HexDigits(from[..2 * n])
    ensures to == HexDecode(from[..2 * n])
  {
    to := [];
    for i := 0 to n
      invariant HexDigits(from[..2 * i]) && to == HexDecode(from[..2 * i])
    {
      assert from[2 * i] == from[..2 * n][2 * i] && from[2 * i + 1] == from[..2 * n][2 * i + 1];
      to := to + [Octet(from[2 * i], from[2 * i + 1])];
      assert from[..2 * i + 2][..2 * i] == from[..2 * i];
    }
  }

  /** The number a digit string stands for. */
  function HexValue(s: seq<byte>): nat
    requires HexDigits(s)
  {
    if s == [] then 0 else 16 * HexValue(s[..|s| - 1]) + FromHex(s[|s| - 1]).value
  }

  function HexNumber(n: nat): (s: seq<byte>)
    ensures HexDigits(s) && HexValue(s) == n && Clean(s) && COMMA !in s && COLON !in s
  {
    HexDigit(n % 16);
    if n < 16 then [ToHex(n)] else HexNumber(n / 16) + [ToHex(n % 16)]
  }

  /** Digits shifted into an unsigned variable of `width` values, until `stop`. */
  method ShiftIn(from: seq<byte>, start: nat, stop: byte, width: nat, ghost digits: seq<byte>) returns (value: nat, next: nat)
    requires start + |digits| < |from| && from[start..start + |digits|] == digits && from[start + |digits|] == stop
    requires HexDigits(digits) && stop !in digits && width > 0
    ensures next == start + |digits| + 1
    ensures value == HexValue(digits) % width
  {
    assert HexDigits([]) && HexValue([]) == 0 && digits[..0] == [];
    hide FromHex, HexValue, HexDigits;
    value, next := 0, start;
    var ch := from[next];
    next := next + 1;
    while ch != stop
      invariant start < next <= start + |digits| + 1 && ch == from[next - 1]
      invariant next - 1 - start < |digits| ==> digits[next - 1 - start] == ch && ch in digits
      invariant HexDigits(digits[..next - 1 - start]) && value == HexValue(digits[..next - 1 - start]) % width
      decreases |from| - next
    {
      ghost var k := next - 1 - start;
      assert k != |digits|;
      assert digits[k] == from[start..start + |digits|][k] == ch;
      DigitShifted(digits, k, width);
      value := (value * 16 + FromHex(ch).value) % width;
      ch := from[next];
      next := next + 1;
      assert k + 1 < |digits| ==> digits[k + 1] == from[start..start + |digits|][k + 1] == ch;
    }
    assert digits[..|digits|] == digits;
  }

  lemma DigitShifted(digits: seq<byte>, k: nat, width: nat)
    requires HexDigits(digits) && k < |digits| && width > 0
    ensures FromHex(digits[k]).Some? && HexDigits(digits[..k]) && HexDigits(digits[..k + 1])
    ensures (HexValue(digits[..k]) % width * 16 + FromHex(digits[k]).value) % width == HexValue(digits[..k + 1]) % width
  {
    hide FromHex;
    assert digits[..k + 1][..k] == digits[..k];
    ShiftMod(HexValue(digits[..k]), FromHex(digits[k]).value, width);
  }

  lemma ShiftMod(v: nat, d: nat, width: nat)
    requires width > 0
    ensures (v % width * 16 + d) % width == (v * 16 + d) % width
  {
    var q, a := v / width, v % width * 16 + d;
    assert v * 16 + d == width * (a / width + q * 16) + a % width;
    DivUnique(v * 16 + d, width, a / width + q * 16, a % width);
  }

  /** `h` begins with the digits of `n` bytes. */
  predicate Carries(h: seq<byte>, n: nat) {
    2 * n <= |h| && HexDigits(h[..2 * n])
  }

  /** decode_M_packet: address, length and data of a memory write; the variables have 64 and 32 bits. */
  method DecodeMPacket(from: seq<byte>, ghost x: seq<byte>, ghost y: seq<byte>, ghost h: seq<byte>)
    returns (addr: nat, len: nat, to: seq<byte>)
    requires from == x + [COMMA] + y + [COLON] + h && COMMA !in x && COLON !in y && HexDigits(x) && HexDigits(y)
    requires Carries(h, HexValue(y) % 0x1_0000_0000)
    ensures addr == HexValue(x) % 0x1_0000_0000_0000_0000 && len == HexValue(y) % 0x1_0000_0000
    ensures Carries(h, len) && to == HexDecode(h[..2 * len])
  {
    hide FromHex, HexValue;
    var i: nat;
    assert from[0..0 + |x|] == x;
    assert from[|x| + 1..|x| + 1 + |y|] == y;
    addr, i := ShiftIn(from, 0, COMMA, 0x1_0000_0000_0000_0000, x);
    len, i := ShiftIn(from, i, COLON, 0x1_0000_0000, y);
    assert from[i..] == h;
    to := ConvertAsciiToInt(from[i..], len);
  }

  /** The memory-write packet a debugger sends. */
  function MPacket(addr: nat, data: seq<byte>): seq<byte> {
    HexNumber(addr) + [COMMA] + HexNumber(|data|) + [COLON] + HexEncode(data)
  }

  /** A memory write of two bytes at 0x1f. */
  lemma MPacketIs()
    ensures MPacket(0x1f, [0xab, 1]) == Ascii("1f,2:ab01")
  {
    hide Ascii;
    assert HexNumber(0x1f) == HexNumber(1) + [ToHex(15)];
    assert [0xab, 1][..1] == [0xab] && [0xab][..0] == [];
    assert HexEncode([0xab]) == HexEncode([]) + [ToHex(10), ToHex(11)];
    assert HexEncode([0xab, 1]) == HexEncode([0xab]) + [ToHex(0), ToHex(1)];
  }

  /** Decoding a memory-write packet gives back its address, length and data. */
  method MPacketRoundTrip(addr: nat, data: seq<byte>) returns (a: nat, n: nat, d: seq<byte>)
    requires addr < 0x1_0000_0000_0000_0000 && |data| < 0x1_0000_0000
    ensures a == addr && n == |data| && d == data
  {
    hide FromHex, HexValue, HexDigits, HexNumber, HexEncode, HexDecode, Clean;
    ghost var h := HexEncode(data);
    HexRoundTrip(data);
    assert h[..2 * |data|] == h;
    a, n, d := DecodeMPacket(MPacket(addr, data), HexNumber(addr), HexNumber(|data|), h);
  }
}
