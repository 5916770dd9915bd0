/** The stub's side of the connection: buffered reads of whatever chunks arrive, and the packet reader. */
module GdbConnection {
  import opened Common
  import opened GdbPacket

  /** The bytes of the reads to come, up to the read that returns none. */
  function Arriving(chunks: seq<seq<byte>>): seq<byte> {
    if chunks == [] || chunks[0] == [] then [] else chunks[0] + Arriving(chunks[1..])
  }

  /** Everything still to be read, however the line closes and reopens. */
  function Amount(chunks: seq<seq<byte>>): nat {
    if chunks == [] then 0 else |chunks[0]| + 1 + Amount(chunks[1..])
  }

  lemma ParseStep(s: seq<byte>)
    ensures Parse(s) ==
      if s == [] then Closed([]) else if s[0] == DOLLAR then ParseBody(s[1..]) else Parse(s[1..])
  {
    hide ParseBody;
    if s != [] {
      if s[0] == DOLLAR {
        assert s == [DOLLAR] + s[1..];
        ParseDollar(s[1..]);
      } else {
        assert s == [s[0]] + s[1..];
        SkipJunk([s[0]], s[1..]);
      }
    }
  }

  lemma MaskedTail(s: seq<byte>)
    requires s != []
    ensures Masked(s[1..]) == Masked(s)[1..] && Masked(s)[0] == s[0] % 0x80
  {
  }

  class Connection {
    /** The static buffer from `bufp` on, and `bufcnt`. */
    var buf: seq<byte>
    var bufcnt: int
    /** What each later read returns; an empty one is the end of the line or an error. */
    var chunks: seq<seq<byte>>
    var written: seq<byte>

    ghost predicate Valid()
      reads this`buf, this`bufcnt
    {
      bufcnt == |buf|
    }

    /** The characters that readchar is to return, before it returns -1. */
    ghost function Stream(): seq<byte>
      reads this`buf, this`chunks
    {
      Masked(if buf != [] then buf + Arriving(chunks) else Arriving(chunks))
    }

    ghost function Left(): nat
      reads this`buf, this`chunks
    {
      |buf| + Amount(chunks)
    }

    constructor (chunks: seq<seq<byte>>)
      ensures Valid() && Stream() == Masked(Arriving(chunks)) && written == []
    {
      buf, bufcnt, this.chunks, written := [], 0, chunks, [];
    }

    /** readchar */
    method ReadChar() returns (c: int)
      requires Valid()
      modifies this`buf, this`bufcnt, this`chunks
      ensures Valid()
      ensures if old(Stream()) == [] then c == -1
              else c == old(Stream())[0] && Stream() == old(Stream())[1..]
      ensures Left() < old(Left()) || (Left() == 0 && c == -1)
    {
      if buf != [] {
        MaskedTail(buf + Arriving(chunks));
        assert (buf + Arriving(chunks))[1..] == buf[1..] + Arriving(chunks);
        assert buf[1..] == [] ==> buf[1..] + Arriving(chunks) == Arriving(chunks);
      } else if Arriving(chunks) != [] {
        MaskedTail(Arriving(chunks));
        var first := chunks[0];
        assert Arriving(chunks)[1..] == first[1..] + Arriving(chunks[1..]);
        assert first[1..] == [] ==> first[1..] + Arriving(chunks[1..]) == Arriving(chunks[1..]);
      }
      if bufcnt > 0 {
        c := buf[0] % 0x80;
        buf, bufcnt := buf[1..], bufcnt - 1;
        return;
      }
      if chunks == [] {
        return -1;
      }
      buf, chunks := chunks[0], chunks[1..];
      bufcnt := |buf|;
      if bufcnt == 0 {
        return -1;
      }
      c := buf[0] % 0x80;
      buf, bufcnt := buf[1..], bufcnt - 1;
    }

    /** getpkt's first inner loop: discard up to '$'. */
    method SkipToDollar() returns (found: bool)
      requires Valid()
      modifies this`buf, this`bufcnt, this`chunks
      ensures Valid()
      ensures found ==> Left() < old(Left())
      ensures found ==> Parse(old(Stream())) == ParseBody(Stream())
      ensures !found ==> Parse(old(Stream())) == Closed([])
    {
      hide Parse, ParseBody, Masked, Arriving;
      while true
        invariant Valid() && Left() <= old(Left()) && Parse(Stream()) == Parse(old(Stream()))
        decreases Left()
      {
        ParseStep(Stream());
        var c := ReadChar();
        if c == DOLLAR {
          return true;
        }
        if c < 0 {
          return false;
        }
      }
    }

    /** getpkt's second inner loop: the payload and its sum up to '#'. */
    method ReadPayload() returns (ok: bool, payload: seq<byte>, csum: byte)
      requires Valid()
      modifies this`buf, this`bufcnt, this`chunks
      ensures Valid()
      ensures Left() <= old(Left())
      ensures HASH !in payload
      ensures ok ==> old(Stream()) == payload + [HASH] + Stream() && csum == Sum(payload)
      ensures !ok ==> old(Stream()) == payload
    {
      hide Masked, Arriving, Sum, Stream;
      payload := [];
      assert Sum([]) == 0 by { SumNone(); }
      var sum: nat := 0;
      while true
        invariant Valid() && Left() <= old(Left()) && HASH !in payload && sum == Sum(payload)
        invariant old(Stream()) == payload + Stream()
        decreases Left()
      {
        ghost var s := Stream();
        var c := ReadChar();
        if c < 0 {
          return false, payload, 0;
        }
        MoveOne(payload, s);
        if c == HASH {
          return true, payload, sum;
        }
        payload := payload + [c];
        sum := (sum + c) % 0x100;
      }
    }

    /** getpkt: the next good packet, a '-' for each bad one before it; what an invalid check digit does is undefined. */
    method GetPkt() returns (r: int, payload: seq<byte>)
      requires Valid()
      modifies this
      ensures Valid()
      ensures match Parse(old(Stream()))
        case Packet(p, acks, rest) =>
          r == |p| && payload == p && written == old(written) + acks && Stream() == rest
        case Closed(acks) => r == -1 && written == old(written) + acks
        case Undefined => true
    {
      hide Parse, ParseBody, Masked, Arriving, Sum, Stream;
      payload := [];
      ghost var acks: seq<byte> := [];
      ghost var lost := false;
      AnswerNone(Parse(Stream()));
      while true
        invariant Valid() && (!lost ==> written == old(written) + acks)
        invariant if lost then Parse(old(Stream())).Undefined? else Parse(old(Stream())) == Answer(acks, Parse(Stream()))
        decreases Left()
      {
        var found := SkipToDollar();
        if !found {
          return -1, payload;
        }
        ghost var t := Stream();
        var ok: bool, csum: byte;
        ok, payload, csum := ReadPayload();
        if !ok {
          BodyOpen(t);
          return -1, payload;
        }
        ghost var u := Stream();
        var d1 := ReadChar();
        var d2 := ReadChar();
        BodyChecked(t, payload, u, csum);
        var c1, c2 := 0, 0;
        if 0 <= d1 && 0 <= d2 && FromHex(d1).Some? && FromHex(d2).Some? {
          c1, c2 := FromHex(d1).value, FromHex(d2).value;
        } else {
          lost := true;
          c1, c2 := *, *;
        }
        if csum == 16 * c1 + c2 {
          written := written + [PLUS];
          return |payload|, payload;
        }
        written := written + [MINUS];
        if !lost {
          AnswerTwice(acks, [MINUS], Parse(Stream()));
        }
        acks := acks + [MINUS];
      }
    }
  }

  // ---------- From the wire to the payload ----------

  /** Whatever comes first, as long as what the stub hears of it is junk and bad frames, and however it is chunked, the
      line parses to the payload sent. A raw byte 0xa4 is heard as '$', so it is no junk. */
  lemma LineDelivers(chunks: seq<seq<byte>>, raw: seq<byte>, ns: seq<Noise>, p: seq<byte>, tail: seq<byte>)
    requires Arriving(chunks) == raw + Frame(p) + tail && Clean(p)
    requires Masked(raw) == NoiseBytes(ns) && forall i :: 0 <= i < |ns| ==> Ignorable(ns[i])
    ensures Parse(Masked(Arriving(chunks))) == Packet(p, Rejections(ns) + [PLUS], Masked(tail))
  {
    hide Parse, Sum, Ignorable, Masked, NoiseBytes, Arriving, Frame;
    FrameSevenBit(p);
    MaskedAdd(raw + Frame(p), tail);
    MaskedAdd(raw, Frame(p));
    FrameReceived(ns, p, Masked(tail));
  }

  lemma FrameSevenBit(p: seq<byte>)
    requires Clean(p)
    ensures Masked(Frame(p)) == Frame(p)
  {
    hide Sum;
    HexDigit(Sum(p) / 16);
    HexDigit(Sum(p) % 16);
    MaskedId(Frame(p));
  }

  /** Raw bytes are junk exactly when none of them is '$', with or without the eighth bit. */
  lemma JunkHeard(raw: seq<byte>)
    ensures Ignorable(Junk(Masked(raw))) <==> forall i :: 0 <= i < |raw| ==> raw[i] != 0x24 && raw[i] != 0xa4
  {
    if i :| 0 <= i < |raw| && (raw[i] == 0x24 || raw[i] == 0xa4) {
      assert Masked(raw)[i] == DOLLAR;
    }
  }

  /** A debugger's packet through a fresh connection: its payload, its acknowledgements, and what is left to read. */
  method ReceivePacket(chunks: seq<seq<byte>>, ghost raw: seq<byte>, ghost ns: seq<Noise>, ghost p: seq<byte>, ghost tail: seq<byte>)
    returns (r: int, payload: seq<byte>, written: seq<byte>, ghost rest: seq<byte>)
    requires Arriving(chunks) == raw + Frame(p) + tail && Clean(p)
    requires Masked(raw) == NoiseBytes(ns) && forall i :: 0 <= i < |ns| ==> Ignorable(ns[i])
    ensures r == |p| && payload == p && written == Rejections(ns) + [PLUS] && rest == Masked(tail)
  {
    hide Parse, Masked, Arriving, Ignorable, Frame;
    LineDelivers(chunks, raw, ns, p, tail);
    var c := new Connection(chunks);
    r, payload := c.GetPkt();
    written, rest := c.written, c.Stream();
  }

  lemma SumNone()
    ensures Sum([]) == 0
  {
  }

  /** A character moved from the front of the line to the end of the payload. */
  lemma MoveOne(p: seq<byte>, s: seq<byte>)
    requires s != []
    ensures p + s == p + [s[0]] + s[1..] && Sum(p + [s[0]]) == (Sum(p) + s[0]) % 0x100
  {
    assert (p + [s[0]])[..|p|] == p;
    assert s == [s[0]] + s[1..];
  }

  lemma AnswerNone(o: Outcome)
    ensures Answer([], o) == o
  {
  }

  lemma AnswerTwice(a: seq<byte>, b: seq<byte>, o: Outcome)
    ensures Answer(a, Answer(b, o)) == Answer(a + b, o)
  {
    if !o.Undefined? {
      assert a + b + o.acks == a + (b + o.acks);
    }
  }

  lemma BodyOpen(t: seq<byte>)
    requires HASH !in t
    ensures ParseBody(t) == Closed([])
  {
    hide Parse;
  }

  /** What the two characters after a payload's '#' make of it. */
  lemma BodyChecked(t: seq<byte>, p: seq<byte>, u: seq<byte>, csum: byte)
    requires t == p + [HASH] + u && HASH !in p && csum == Sum(p)
    ensures ParseBody(t) ==
      if |u| < 2 || FromHex(u[0]).None? || FromHex(u[1]).None? then Undefined
      else if csum == 16 * FromHex(u[0]).value + FromHex(u[1]).value then Packet(p, [PLUS], u[2..])
      else Answer([MINUS], Parse(u[2..]))
  {
    hide Parse, Sum, FromHex, Find;
    assert t[..|p|] == p && t[|p| + 1..] == u;
    FindAt(t, HASH, |p|);
    if |u| >= 2 {
      assert t[|p| + 1] == u[0] && t[|p| + 2] == u[1];
      assert t[|p| + 3..] == u[2..];
    }
  }
}
